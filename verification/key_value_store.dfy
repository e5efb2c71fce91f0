/**
 Model of `KeyValueStore` (src/key-value-store.ts): the applied-state map that
 committed commands are folded into. The store is an immutable `map`, and each
 mutating method returns the new map.
 */
module KeyValueStore {
  import opened Wrappers

  type Store = map<string, string>

  /** `get(key)`: the bound value, or `None` for the program's `undefined`. */
  function Get(s: Store, key: string): (r: Option<string>)
    ensures r.Some? <==> key in s
    ensures r.Some? ==> r.value == s[key]
  {
    if key in s then Some(s[key]) else None
  }

  /** A freshly constructed store. */
  function Empty(): (s: Store)
    ensures forall key :: Get(s, key) == None
  {
    map[]
  }

  /** `set(key, value)`: binds `key`, leaving every other binding as it was. */
  function Set(s: Store, key: string, value: string): (r: Store)
    ensures Get(r, key) == Some(value)
    ensures forall k :: k != key ==> Get(r, k) == Get(s, k)
    ensures r.Keys == s.Keys + {key}
  {
    s[key := value]
  }

  /** `delete(key)`: removes `key`; the flag says whether it had been bound. */
  function Delete(s: Store, key: string): (r: (Store, bool))
    ensures r.1 <==> Get(s, key).Some?
    ensures Get(r.0, key) == None
    ensures forall k :: k != key ==> Get(r.0, k) == Get(s, k)
  {
    (s - {key}, key in s)
  }

  /** `clear()`: drops every binding. */
  function Clear(s: Store): (r: Store)
    ensures forall key :: Get(r, key) == None
  {
    map[]
  }

  /** Deleting an absent key changes nothing and reports `false`. */
  lemma DeleteAbsent(s: Store, key: string)
    requires Get(s, key) == None
    ensures Delete(s, key) == (s, false)
  {
    assert s - {key} == s;
  }
}
