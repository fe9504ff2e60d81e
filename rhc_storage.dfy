/**
 * The in-memory key-value store of rhc/src/storage.rs.
 *
 * An operation's payload is bincode-encoded; bincode is not modelled, so what
 * it makes of the payload is passed in: `asPair` is the decoding as a
 * `(String, Vec<u8>)` pair and `asKey` the decoding as a `String`, `None` when
 * decoding fails. The lease proof and timestamp that an operation also carries
 * are not read by the store and are left out of `Operation`.
 */
module RhcStorage {
  import opened Wrappers
  import opened RhcBase

  /** `OperationType`. */
  datatype OperationType = Write | Delete | Rename | CreateDirectory

  /** `Operation`, less the fields the store ignores. */
  datatype Operation = Operation(id: Uuid, opType: OperationType, data: seq<Byte>)

  type Data = map<string, seq<Byte>>

  /** `get(key)`: the stored value, if any. */
  function Lookup(d: Data, key: string): Option<seq<Byte>>
  {
    if key in d then Some(d[key]) else None
  }

  /** The key an operation targets, for the operations that target one. */
  function Target(op: Operation, asPair: Option<(string, seq<Byte>)>, asKey: Option<string>): Option<string>
  {
    match op.opType
    case Write => if asPair.Some? then Some(asPair.value.0) else None
    case Delete => asKey
    case _ => None
  }

  /** `apply_operation(operation)`: its result and the new data. */
  function Applied(d: Data, op: Operation, asPair: Option<(string, seq<Byte>)>, asKey: Option<string>): (Result<(), Error>, Data)
  {
    match op.opType
    case Write =>
      if asPair.None? then (Err(Serialization), d) else (Ok(()), d[asPair.value.0 := asPair.value.1])
    case Delete =>
      if asKey.None? then (Err(Serialization), d) else (Ok(()), d - {asKey.value})
    case _ => (Ok(()), d)
  }

  /**
   * A decoded write makes its key read back its value; a decoded delete makes
   * its key absent; a payload that does not decode is a `Serialization` error
   * and changes nothing; `Rename` and `CreateDirectory` succeed and change
   * nothing. No key other than the targeted one changes.
   */
  lemma ApplyEffect(d: Data, op: Operation, asPair: Option<(string, seq<Byte>)>, asKey: Option<string>, k: string)
    ensures var (r, d') := Applied(d, op, asPair, asKey);
            (op.opType == Write && asPair.Some? ==> r.Ok? && Lookup(d', asPair.value.0) == Some(asPair.value.1)) &&
            (op.opType == Delete && asKey.Some? ==> r.Ok? && Lookup(d', asKey.value) == None) &&
            ((op.opType == Rename || op.opType == CreateDirectory) ==> r.Ok? && d' == d) &&
            (r.Err? <==> (op.opType == Write && asPair.None?) || (op.opType == Delete && asKey.None?)) &&
            (r.Err? ==> r.error == Serialization && d' == d) &&
            (Target(op, asPair, asKey) != Some(k) ==> Lookup(d', k) == Lookup(d, k))
  {
  }

  /** The data after a run of decoded writes, applied in order. */
  function WriteAll(d: Data, writes: seq<(string, seq<Byte>)>): Data
    decreases |writes|
  {
    if writes == [] then d
    else
      var n := |writes| - 1;
      Applied(WriteAll(d, writes[..n]), Operation(0, Write, []), Some(writes[n]), None).1
  }

  /** A key no write touches reads as before. */
  lemma {:induction false} UntouchedKeyReadBack(d: Data, writes: seq<(string, seq<Byte>)>, k: string)
    requires forall i :: 0 <= i < |writes| ==> writes[i].0 != k
    ensures Lookup(WriteAll(d, writes), k) == Lookup(d, k)
    decreases |writes|
  {
    if writes != [] {
      var n := |writes| - 1;
      var front := writes[..n];
      assert WriteAll(d, writes) == WriteAll(d, front)[writes[n].0 := writes[n].1];
      assert forall i :: 0 <= i < |front| ==> front[i] == writes[i];
      UntouchedKeyReadBack(d, front, k);
    }
  }

  /** The last write to a key is what `get` reads back. */
  lemma {:induction false} LastWriteReadBack(d: Data, writes: seq<(string, seq<Byte>)>, k: string, i: nat)
    requires i < |writes| && writes[i].0 == k
    requires forall j :: i < j < |writes| ==> writes[j].0 != k
    ensures Lookup(WriteAll(d, writes), k) == Some(writes[i].1)
    decreases |writes|
  {
    var n := |writes| - 1;
    var front := writes[..n];
    assert WriteAll(d, writes) == WriteAll(d, front)[writes[n].0 := writes[n].1];
    if i < n {
      assert forall j :: 0 <= j < |front| ==> front[j] == writes[j];
      LastWriteReadBack(d, front, k, i);
    }
  }

  /**
   * The linearizability test of rhc/tests/local_consensus.rs: three writes of
   * "1", "2", "3" to "counter" read back "3".
   */
  lemma CounterTest()
    ensures Lookup(WriteAll(map[], [("counter", [49]), ("counter", [50]), ("counter", [51])]), "counter") == Some([51])
  {
    var w := [("counter", [49]), ("counter", [50]), ("counter", [51])];
    LastWriteReadBack(map[], w, "counter", 2);
  }

  /** The key starts with `prefix` (`str::starts_with`). */
  predicate StartsWith(key: string, prefix: string)
  {
    |prefix| <= |key| && key[..|prefix|] == prefix
  }

  /** `InMemoryStorage`. */
  class InMemoryStorage {
    var data: Data

    constructor ()
      ensures data == map[]
    {
      data := map[];
    }

    /** `apply_operation(operation)`. */
    method ApplyOperation(op: Operation, asPair: Option<(string, seq<Byte>)>, asKey: Option<string>) returns (r: Result<(), Error>)
      modifies this
      ensures (r, data) == Applied(old(data), op, asPair, asKey)
    {
      match op.opType {
        case Write =>
          if asPair.None? {
            return Err(Serialization);
          }
          var (key, value) := asPair.value;
          data := data[key := value];
        case Delete =>
          if asKey.None? {
            return Err(Serialization);
          }
          data := data - {asKey.value};
        case _ =>
      }
      r := Ok(());
    }

    /** `get(key)`: never fails; the value is present exactly for a stored key. */
    function Get(key: string): (r: Result<Option<seq<Byte>>, Error>)
      reads this
      ensures r.Ok? && (r.value.Some? <==> key in data)
      ensures r.value.Some? ==> r.value.value == data[key]
    {
      Ok(Lookup(data, key))
    }

    /** `scan(prefix)`: the entries whose key starts with `prefix`, each once, in map order. */
    method Scan(prefix: string) returns (r: Result<seq<(string, seq<Byte>)>, Error>)
      ensures r.Ok?
      ensures forall e :: e in r.value <==> e.0 in data && StartsWith(e.0, prefix) && e.1 == data[e.0]
      ensures forall i, j :: 0 <= i < |r.value| && 0 <= j < |r.value| && i != j ==> r.value[i].0 != r.value[j].0
    {
      var out: seq<(string, seq<Byte>)> := [];
      var pending := data.Keys;
      while pending != {}
        invariant pending <= data.Keys
        invariant forall e :: e in out <==> e.0 in data.Keys - pending && StartsWith(e.0, prefix) && e.1 == data[e.0]
        invariant forall i :: 0 <= i < |out| ==> out[i].0 !in pending
        invariant forall i, j :: 0 <= i < |out| && 0 <= j < |out| && i != j ==> out[i].0 != out[j].0
        decreases pending
      {
        var k :| k in pending;
        if StartsWith(k, prefix) {
          out := out + [(k, data[k])];
        }
        pending := pending - {k};
      }
      r := Ok(out);
    }
  }
}
