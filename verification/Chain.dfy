/**
 The reference meaning of a history of batches: replay it, block after block, remembering for each key
 the write that stands. An if-not-exist block leaves alone any key that already has a write.
 */
module Chain {
  import opened ByteOrder
  import opened Entries
  import opened Wrappers

  datatype Block = Block(num: U64, entries: seq<Entry>, ifNotExist: bool)

  datatype Write = Write(num: U64, value: Value)

  predicate Writes(blk: Block, key: Key) {
    key in LastWins(blk.entries)
  }

  function WriteOf(blk: Block, key: Key): Write
    requires Writes(blk, key)
  {
    Write(blk.num, LastWins(blk.entries)[key])
  }

  /** The write of `key` that stands after `chain`. */
  function Writer(chain: seq<Block>, key: Key): Option<Write> {
    if |chain| == 0 then None
    else
      var last, before := chain[|chain| - 1], Writer(chain[..|chain| - 1], key);
      if Writes(last, key) && (!last.ifNotExist || before.None?)
      then Some(WriteOf(last, key))
      else before
  }

  lemma WriterSnoc(chain: seq<Block>, blk: Block, key: Key)
    ensures Writer(chain + [blk], key)
         == if Writes(blk, key) && (!blk.ifNotExist || Writer(chain, key).None?)
            then Some(WriteOf(blk, key))
            else Writer(chain, key)
  {
    assert (chain + [blk])[..|chain|] == chain;
  }

  /** A block that writes, writes in this mode. */
  predicate InMode(blk: Block, ifNotExist: bool) {
    blk.entries == [] || blk.ifNotExist == ifNotExist
  }

  ghost predicate Uniform(chain: seq<Block>, ifNotExist: bool) {
    forall i :: 0 <= i < |chain| ==> InMode(chain[i], ifNotExist)
  }

  ghost predicate Increasing(chain: seq<Block>) {
    forall i, j :: 0 <= i < j < |chain| ==> chain[i].num < chain[j].num
  }

  lemma ShapeSnoc(chain: seq<Block>, blk: Block, ifNotExist: bool)
    requires Increasing(chain) && Uniform(chain, ifNotExist) && InMode(blk, ifNotExist)
    requires forall i :: 0 <= i < |chain| ==> chain[i].num < blk.num
    ensures Increasing(chain + [blk]) && Uniform(chain + [blk], ifNotExist)
  {
  }

  ghost predicate IsFirstWrite(chain: seq<Block>, key: Key, i: nat) {
    i < |chain| && Writes(chain[i], key) && forall j :: 0 <= j < i ==> !Writes(chain[j], key)
  }

  ghost predicate IsLastWrite(chain: seq<Block>, key: Key, i: nat) {
    i < |chain| && Writes(chain[i], key) && forall j :: i < j < |chain| ==> !Writes(chain[j], key)
  }

  ghost predicate Mentions(chain: seq<Block>, key: Key) {
    exists i :: 0 <= i < |chain| && Writes(chain[i], key)
  }

  lemma MentionsSnoc(chain: seq<Block>, key: Key)
    requires |chain| > 0
    ensures Mentions(chain, key) <==> Mentions(chain[..|chain| - 1], key) || Writes(chain[|chain| - 1], key)
  {
    var front := chain[..|chain| - 1];
    if i :| 0 <= i < |front| && Writes(front[i], key) {
      assert Writes(chain[i], key);
    }
    if i :| 0 <= i < |chain| && Writes(chain[i], key) {
      assert i < |front| ==> Writes(front[i], key);
    }
  }

  lemma FirstWriteExtends(chain: seq<Block>, key: Key, i: nat)
    requires |chain| > 0 && IsFirstWrite(chain[..|chain| - 1], key, i)
    ensures IsFirstWrite(chain, key, i) && chain[i] == chain[..|chain| - 1][i]
  {
    assert forall j :: 0 <= j <= i ==> chain[j] == chain[..|chain| - 1][j];
  }

  lemma FirstWriteAtEnd(chain: seq<Block>, key: Key)
    requires |chain| > 0 && !Mentions(chain[..|chain| - 1], key) && Writes(chain[|chain| - 1], key)
    ensures IsFirstWrite(chain, key, |chain| - 1)
  {
    forall j | 0 <= j < |chain| - 1
      ensures !Writes(chain[j], key)
    {
      assert chain[j] == chain[..|chain| - 1][j];
    }
  }

  /** In if-not-exist mode the write that stands is the first one. */
  lemma {:induction false} WriterIsFirst(chain: seq<Block>, key: Key)
    requires Uniform(chain, true)
    ensures Writer(chain, key).Some? ==>
              exists i: nat :: IsFirstWrite(chain, key, i) && Writer(chain, key) == Some(WriteOf(chain[i], key))
    ensures Writer(chain, key).None? ==> !Mentions(chain, key)
  {
    if |chain| > 0 {
      var n := |chain| - 1;
      var front := chain[..n];
      WriterIsFirst(front, key);
      assert InMode(chain[n], true);
      if Writer(front, key).Some? {
        var i: nat :| IsFirstWrite(front, key, i) && Writer(front, key) == Some(WriteOf(front[i], key));
        FirstWriteExtends(chain, key, i);
      } else {
        MentionsSnoc(chain, key);
        if Writes(chain[n], key) {
          FirstWriteAtEnd(chain, key);
        }
      }
    }
  }

  lemma LastWriteExtends(chain: seq<Block>, key: Key, i: nat)
    requires |chain| > 0 && IsLastWrite(chain[..|chain| - 1], key, i) && !Writes(chain[|chain| - 1], key)
    ensures IsLastWrite(chain, key, i) && chain[i] == chain[..|chain| - 1][i]
  {
    assert forall j :: i <= j < |chain| - 1 ==> chain[j] == chain[..|chain| - 1][j];
  }

  /** In overwrite mode it is the last one. */
  lemma {:induction false} WriterIsLast(chain: seq<Block>, key: Key)
    requires Uniform(chain, false)
    ensures Writer(chain, key).Some? ==>
              exists i: nat :: IsLastWrite(chain, key, i) && Writer(chain, key) == Some(WriteOf(chain[i], key))
    ensures Writer(chain, key).None? ==> !Mentions(chain, key)
  {
    if |chain| > 0 {
      var n := |chain| - 1;
      var front := chain[..n];
      if Writes(chain[n], key) {
        assert InMode(chain[n], false);
        assert IsLastWrite(chain, key, n);
      } else {
        WriterIsLast(front, key);
        MentionsSnoc(chain, key);
        if Writer(front, key).Some? {
          var i: nat :| IsLastWrite(front, key, i) && Writer(front, key) == Some(WriteOf(front[i], key));
          LastWriteExtends(chain, key, i);
        }
      }
    }
  }

  /** The write that stands comes from one of the blocks. */
  lemma {:induction false} WriterIsInChain(chain: seq<Block>, key: Key)
    requires Writer(chain, key).Some?
    ensures exists i :: && 0 <= i < |chain| && Writes(chain[i], key)
                        && Writer(chain, key) == Some(WriteOf(chain[i], key))
  {
    var n := |chain| - 1;
    if Writer(chain, key) == Writer(chain[..n], key) {
      WriterIsInChain(chain[..n], key);
      var i :| && 0 <= i < n && Writes(chain[..n][i], key)
               && Writer(chain, key) == Some(WriteOf(chain[..n][i], key));
      assert Writes(chain[i], key);
    } else {
      assert Writes(chain[n], key);
    }
  }

  // ---- Cutting a chain at a block number ----

  /** The blocks numbered at or below `bound` (which may be -1), in order. */
  function UpTo(chain: seq<Block>, bound: int): (r: seq<Block>)
    ensures |r| <= |chain|
    ensures forall i :: 0 <= i < |r| ==> r[i].num <= bound
  {
    if |chain| == 0 then []
    else
      var last, front := chain[|chain| - 1], UpTo(chain[..|chain| - 1], bound);
      if last.num <= bound then front + [last] else front
  }

  lemma UpToSnoc(chain: seq<Block>, blk: Block, bound: int)
    ensures UpTo(chain + [blk], bound) == if blk.num <= bound then UpTo(chain, bound) + [blk] else UpTo(chain, bound)
  {
    assert (chain + [blk])[..|chain|] == chain;
  }

  lemma {:induction false} UpToWhole(chain: seq<Block>, bound: int)
    requires forall i :: 0 <= i < |chain| ==> chain[i].num <= bound
    ensures UpTo(chain, bound) == chain
  {
    if |chain| > 0 {
      UpToWhole(chain[..|chain| - 1], bound);
    }
  }

  lemma {:induction false} UpToUpTo(chain: seq<Block>, high: int, low: int)
    requires low <= high
    ensures UpTo(UpTo(chain, high), low) == UpTo(chain, low)
  {
    if |chain| > 0 {
      var n := |chain| - 1;
      UpToUpTo(chain[..n], high, low);
      var front := UpTo(chain[..n], high);
      UpToSnoc(front, chain[n], low);
      assert UpTo(chain, high) == if chain[n].num <= high then front + [chain[n]] else front;
    }
  }

  /** In a chain with increasing numbers the cut is a prefix, and what is cut off lies above the bound. */
  lemma {:induction false} UpToIsPrefix(chain: seq<Block>, bound: int)
    requires Increasing(chain)
    ensures UpTo(chain, bound) <= chain
    ensures |UpTo(chain, bound)| < |chain| ==> chain[|UpTo(chain, bound)|].num > bound
  {
    if |chain| > 0 {
      var n := |chain| - 1;
      if chain[n].num <= bound {
        UpToWhole(chain, bound);
      } else {
        UpToIsPrefix(chain[..n], bound);
        assert UpTo(chain, bound) == UpTo(chain[..n], bound) <= chain[..n];
        assert |UpTo(chain, bound)| < n ==> chain[..n][|UpTo(chain, bound)|] == chain[|UpTo(chain, bound)|];
      }
    }
  }

  lemma UpToKeepsShape(chain: seq<Block>, bound: int)
    requires Increasing(chain)
    ensures Increasing(UpTo(chain, bound))
    ensures forall m: bool :: Uniform(chain, m) ==> Uniform(UpTo(chain, bound), m)
  {
    UpToIsPrefix(chain, bound);
  }

  /** A write at or below the cut still stands after cutting; a write that stands in an if-not-exist
      chain's cut stands in the whole. */
  lemma {:induction false} WriterUpTo(chain: seq<Block>, key: Key, bound: int)
    requires Increasing(chain)
    ensures Writer(chain, key).Some? && Writer(chain, key).value.num <= bound ==>
              Writer(UpTo(chain, bound), key) == Writer(chain, key)
    ensures Writer(chain, key).None? ==> Writer(UpTo(chain, bound), key).None?
    ensures Uniform(chain, true) && Writer(UpTo(chain, bound), key).Some? ==>
              Writer(UpTo(chain, bound), key) == Writer(chain, key)
  {
    if |chain| > 0 {
      var n := |chain| - 1;
      var front := chain[..n];
      if chain[n].num <= bound {
        UpToWhole(chain, bound);
      } else {
        WriterUpTo(front, key, bound);
      }
    }
  }

  /** The write that stands in a cut is at or below it. */
  lemma WriterBounded(chain: seq<Block>, key: Key, bound: int)
    ensures Writer(UpTo(chain, bound), key).Some? ==> Writer(UpTo(chain, bound), key).value.num <= bound
  {
    if Writer(UpTo(chain, bound), key).Some? {
      WriterIsInChain(UpTo(chain, bound), key);
    }
  }

  /** Every block's keys lie in `universe`. */
  ghost predicate KeysWithin(chain: seq<Block>, universe: iset<Key>) {
    forall i, k :: 0 <= i < |chain| && Writes(chain[i], k) ==> k in universe
  }
}
