/** The last-sample cache of utils/datastore.js: a keyed map kept in memory,
    loaded once from a backing file, read with `get` and overwritten entry by
    entry with `set`. The file itself (reading, JSON, writing back, watching)
    is not modelled; what the file held when it was loaded is a parameter. */
module Datastore {
  import opened Wrappers

  /** What `reload` finds at the cache path. */
  datatype StoreFile<V> = Missing | Unparsable | Parsed(entries: map<int, V>)

  /** `reload`: the parsed file, or the empty cache when the file is missing
      or does not parse. */
  function Reload<V>(file: StoreFile<V>): (m: map<int, V>)
    ensures file.Parsed? ==> m == file.entries
    ensures !file.Parsed? ==> m == map[]
  {
    match file
    case Parsed(entries) => entries
    case _ => map[]
  }

  /** `getEntry` as a function of the map: the stored value, or null (None). */
  function Find<V>(m: map<int, V>, id: int): (r: Option<V>)
    ensures r.Some? <==> id in m
    ensures r.Some? ==> r.value == m[id]
  {
    if id in m then Some(m[id]) else None
  }

  /** Reading back what was just set gives the value stored, and every other
      id reads as before. */
  lemma FindAfterStore<V>(m: map<int, V>, id: int, value: V, other: int)
    ensures Find(m[id := value], id) == Some(value)
    ensures other != id ==> Find(m[id := value], other) == Find(m, other)
  {
  }

  /** The module-level `cache` object. */
  class Cache<V> {
    var entries: map<int, V>

    /** Module load: `let cache = reload()`. */
    constructor (file: StoreFile<V>)
      ensures entries == Reload(file)
      ensures !file.Parsed? ==> entries == map[]
    {
      entries := Reload(file);
    }

    /** `getEntry(id)`: the entry stored under `id`, or None when there is none. */
    method Get(id: int) returns (r: Option<V>)
      ensures r.Some? <==> id in entries
      ensures r.Some? ==> r.value == entries[id]
    {
      if id in entries {
        r := Some(entries[id]);
      } else {
        r := None;
      }
    }

    /** `setEntry(id, value)`: the entry under `id` becomes (a copy of)
        `value`, whatever it held before; no other entry changes. */
    method Set(id: int, value: V)
      modifies this
      ensures entries == old(entries)[id := value]
      ensures Find(entries, id) == Some(value)
      ensures forall other :: other != id ==> Find(entries, other) == Find(old(entries), other)
    {
      entries := entries[id := value];
      FindAfterStore(old(entries), id, value, id);
      forall other | other != id
        ensures Find(entries, other) == Find(old(entries), other)
      {
        FindAfterStore(old(entries), id, value, other);
      }
    }
  }
}
