// The object store the chunked-upload protocol keeps all of its state in: one
// bucket, seen as a map from object key to content.
module ObjectStore {
  import opened Common

  /** The store's minimum size for every compose source but the last (5 MiB). */
  const MIN_PART_SIZE: nat := 5 * 1024 * 1024

  /** Keys of `objects` that start with `prefix`. */
  function KeysUnder(objects: map<string, seq<byte>>, prefix: string): (ks: set<string>)
    ensures forall k :: k in ks <==> k in objects && StartsWith(k, prefix)
  {
    set k | k in objects && StartsWith(k, prefix)
  }

  /** `objects` with every key under `prefix` removed. */
  function RemoveUnder(objects: map<string, seq<byte>>, prefix: string): (m: map<string, seq<byte>>)
    ensures forall k :: k in m <==> k in objects && !StartsWith(k, prefix)
    ensures forall k :: k in m ==> m[k] == objects[k]
  {
    objects - KeysUnder(objects, prefix)
  }

  /** Whether a compose of `sources` is accepted by the store. */
  predicate Composable(objects: map<string, seq<byte>>, sources: seq<string>)
  {
    |sources| > 0
    && (forall i :: 0 <= i < |sources| ==> sources[i] in objects)
    && (forall i :: 0 <= i < |sources| - 1 ==> |objects[sources[i]]| >= MIN_PART_SIZE)
  }

  /** The contents of `sources`, concatenated in list order. */
  function Concatenation(objects: map<string, seq<byte>>, sources: seq<string>): seq<byte>
    requires forall i :: 0 <= i < |sources| ==> sources[i] in objects
  {
    if |sources| == 0 then [] else Concatenation(objects, sources[..|sources| - 1]) + objects[sources[|sources| - 1]]
  }

  class Store {
    var objects: map<string, seq<byte>>

    constructor ()
      ensures objects == map[]
    {
      objects := map[];
    }

    /** putObject: creates or overwrites one object. */
    method Put(key: string, data: seq<byte>)
      modifies this
      ensures objects == old(objects)[key := data]
    {
      objects := objects[key := data];
    }

    /** statObject: the size of an object, None when it does not exist. */
    method Stat(key: string) returns (size: Option<nat>)
      ensures key in objects ==> size == Some(|objects[key]|)
      ensures key !in objects ==> size == None
    {
      size := if key in objects then Some(|objects[key]|) else None;
    }

    /** listObjects, recursive: every key under `prefix`, each once. */
    method ListByPrefix(prefix: string) returns (keys: seq<string>)
      ensures forall k :: k in keys <==> k in objects && StartsWith(k, prefix)
      ensures forall i, j :: 0 <= i < j < |keys| ==> keys[i] != keys[j]
    {
      var pending := KeysUnder(objects, prefix);
      keys := [];
      while pending != {}
        invariant forall k :: k in keys || k in pending <==> k in objects && StartsWith(k, prefix)
        invariant forall k :: k in keys ==> k !in pending
        invariant forall i, j :: 0 <= i < j < |keys| ==> keys[i] != keys[j]
        decreases pending
      {
        var k :| k in pending;
        keys := keys + [k];
        pending := pending - {k};
      }
    }

    /** removeObject: deleting a missing key is a no-op. */
    method Remove(key: string)
      modifies this
      ensures objects == old(objects) - {key}
    {
      objects := objects - {key};
    }

    /**
     * composeObject: writes the concatenation of `sources`, in list order, at
     * `dest`; fails and changes nothing when the store refuses the sources.
     */
    method Compose(dest: string, sources: seq<string>) returns (ok: bool)
      modifies this
      ensures ok == Composable(old(objects), sources)
      ensures ok ==> objects == old(objects)[dest := Concatenation(old(objects), sources)]
      ensures !ok ==> objects == old(objects)
    {
      ok := Composable(objects, sources);
      if ok {
        objects := objects[dest := Concatenation(objects, sources)];
      }
    }
  }
}
