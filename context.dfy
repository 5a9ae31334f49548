/**
 * The boolean state store the runner reads and writes
 * (src/dialog_runner/context.rs): the `StateContext` implementation over a
 * hash map from variable names to booleans.
 */
module Context {
  import opened Wrappers

  /** `get_value`: the stored value of `key`, or nothing when it was never set. */
  function Get(store: map<string, bool>, key: string): (r: Option<bool>)
    ensures r.None? <==> key !in store
    ensures forall v :: r == Some(v) <==> key in store && store[key] == v
  {
    if key in store then Some(store[key]) else None
  }

  /** Reading a key right after setting it gives the value just set. */
  lemma GetAfterSet(store: map<string, bool>, key: string, value: bool)
    ensures Get(store[key := value], key) == Some(value)
  {
  }

  /** Setting one key leaves every other key as it was. */
  lemma GetAfterSetOther(store: map<string, bool>, key: string, value: bool, other: string)
    requires other != key
    ensures Get(store[key := value], other) == Get(store, other)
  {
  }

  /** A `HashMap<String, bool>` used as the runner's state context. */
  class MapContext {
    var store: map<string, bool>

    constructor ()
      ensures store == map[]
    {
      store := map[];
    }

    /** `get_value`, which reads the store and changes nothing. */
    function GetValue(key: string): (r: Option<bool>)
      reads this
      ensures r.None? <==> key !in store
      ensures r.Some? ==> key in store && store[key] == r.value
    {
      Get(store, key)
    }

    /** `set_value`: an insert that overwrites an earlier value of the key. */
    method SetValue(key: string, value: bool)
      modifies this
      ensures store == old(store)[key := value]
      ensures GetValue(key) == Some(value)
      ensures forall k :: k != key ==> GetValue(k) == old(GetValue(k))
    {
      store := store[key := value];
    }
  }
}
