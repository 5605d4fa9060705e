/**
 The bytes of the store without time traversal: one cell a key, holding the eight bytes of the block it
 was written at followed by the value.
 */
module LatestCells {
  import opened ByteOrder
  import opened Chain
  import opened Entries
  import opened Wrappers

  type Kv = map<Bytes, Bytes>

  function Cell(b: U64, value: Value): Bytes {
    EncodeU64(b) + value
  }

  lemma CellParts(b: U64, value: Value)
    ensures |Cell(b, value)| >= 8
    ensures DecodeU64(Cell(b, value)[..8]) == b && Cell(b, value)[8..] == value
  {
    assert Cell(b, value)[..8] == EncodeU64(b);
    U64RoundTrip(b);
  }

  /** Any stored value of at least eight bytes is the cell of exactly one block and value. */
  lemma CellOnto(stored: Bytes)
    requires |stored| >= 8
    ensures Cell(DecodeU64(stored[..8]), stored[8..]) == stored
  {
    U64Onto(stored[..8]);
  }

  ghost function Read(kv: Kv, key: Key, b: U64): Lookup {
    if key !in kv then Miss
    else if |kv[key]| < 8 then Corrupt
    else if b < DecodeU64(kv[key][..8]) then Miss
    else Hit(kv[key][8..])
  }

  /** The cells a batch adds or replaces, all of it checked before any of it lands. */
  ghost function Cells(kv: Kv, batch: map<Key, Value>, ifNotExist: bool, b: U64): (cells: Kv)
    ensures forall k :: k in cells <==> k in batch && (!ifNotExist || k !in kv)
    ensures forall k :: k in cells ==> cells[k] == Cell(b, batch[k])
  {
    if batch == map[] then map[]
    else
      var k :| k in batch;
      var rest := Cells(kv, batch - {k}, ifNotExist, b);
      if ifNotExist && k in kv then rest else rest[k := Cell(b, batch[k])]
  }

  lemma CellsStep(kv: Kv, batch: map<Key, Value>, ifNotExist: bool, b: U64, k: Key, v: Value)
    ensures Cells(kv, batch[k := v], ifNotExist, b)
         == if ifNotExist && k in kv then Cells(kv, batch, ifNotExist, b)
            else Cells(kv, batch, ifNotExist, b)[k := Cell(b, v)]
  {
  }

  ghost function Put(kv: Kv, batch: map<Key, Value>, ifNotExist: bool, b: U64): Kv {
    kv + Cells(kv, batch, ifNotExist, b)
  }

  ghost function PutAll(chain: seq<Block>): Kv {
    if |chain| == 0 then map[]
    else
      var last := chain[|chain| - 1];
      Put(PutAll(chain[..|chain| - 1]), LastWins(last.entries), last.ifNotExist, last.num)
  }

  /**
   After any history of batches, with any mix of flags and block numbers, a key's cell is the write that
   stands for it, and a read finds that write's value from its block on and nothing before.
   */
  lemma {:induction false} HistoryRefinement(chain: seq<Block>, key: Key, b: U64)
    ensures key in PutAll(chain) <==> Writer(chain, key).Some?
    ensures key in PutAll(chain) ==>
              PutAll(chain)[key] == Cell(Writer(chain, key).value.num, Writer(chain, key).value.value)
    ensures Read(PutAll(chain), key, b) == match Writer(chain, key)
                                           case Some(w) => if w.num <= b then Hit(w.value) else Miss
                                           case None => Miss
  {
    if |chain| > 0 {
      HistoryRefinement(chain[..|chain| - 1], key, b);
    }
    if Writer(chain, key).Some? {
      CellParts(Writer(chain, key).value.num, Writer(chain, key).value.value);
    }
  }
}
