/** Entries, requests' answers, and what a batch of entries amounts to when later entries win. */
module Entries {
  import opened ByteOrder
  import opened Wrappers

  type Key = Bytes
  type Value = Bytes

  datatype Entry = Entry(key: Key, value: Value)

  /** One position of a response: code, key and (when found) value bytes. */
  datatype Answer = Found(key: Key, value: Value) | NotFound(key: Key)

  /** What one key lookup can come to. `Corrupt` is a stored value too short to carry its block stamp. */
  datatype Lookup = Hit(value: Value) | Miss | Corrupt

  datatype StoreError = InvalidStoredValue(key: Key)

  /** What a lookup worker hands back for its key. */
  function Outcome(key: Key, found: Lookup): Result<Answer, StoreError> {
    match found
    case Hit(value) => Ok(Found(key, value))
    case Miss => Ok(NotFound(key))
    case Corrupt => Err(InvalidStoredValue(key))
  }

  /** The key set of a batch with the value each key ends up with. */
  function LastWins(entries: seq<Entry>): map<Key, Value> {
    if |entries| == 0 then map[]
    else
      var last := entries[|entries| - 1];
      LastWins(entries[..|entries| - 1])[last.key := last.value]
  }

  lemma LastWinsStep(entries: seq<Entry>, i: nat)
    requires i < |entries|
    ensures LastWins(entries[..i + 1]) == LastWins(entries[..i])[entries[i].key := entries[i].value]
  {
    assert entries[..i + 1][..i] == entries[..i];
  }

  lemma LastWinsOne(k: Key, v: Value)
    ensures LastWins([Entry(k, v)]) == map[k := v]
  {
    assert [Entry(k, v)][..0] == [];
  }

  lemma LastWinsWhole(entries: seq<Entry>)
    ensures LastWins(entries[..|entries|]) == LastWins(entries)
  {
    assert entries[..|entries|] == entries;
  }

  /** A batch keeps exactly the keys it mentions, each with the value of its last mention. */
  lemma {:induction false} LastWinsIsLastMention(entries: seq<Entry>, k: Key)
    ensures k in LastWins(entries) <==> exists i :: 0 <= i < |entries| && entries[i].key == k
    ensures k in LastWins(entries) ==>
              exists i :: && 0 <= i < |entries| && entries[i] == Entry(k, LastWins(entries)[k])
                          && forall j :: i < j < |entries| ==> entries[j].key != k
  {
    var n := |entries|;
    if n > 0 {
      var front := entries[..n - 1];
      LastWinsIsLastMention(front, k);
      if entries[n - 1].key == k {
        assert entries[n - 1] == Entry(k, LastWins(entries)[k]);
      } else if k in LastWins(entries) {
        var i :| 0 <= i < |front| && front[i] == Entry(k, LastWins(front)[k])
          && forall j :: i < j < |front| ==> front[j].key != k;
        assert entries[i] == Entry(k, LastWins(entries)[k]);
        assert forall j :: i < j < n ==> j == n - 1 || entries[j] == front[j];
      } else {
        assert forall i :: 0 <= i < n - 1 ==> entries[i] == front[i];
      }
    }
  }
}
