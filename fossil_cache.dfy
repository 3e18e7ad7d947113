/** The least-recently-used cache Fossil repositories keep of decoded
    artifacts: an insertion-ordered dictionary whose oldest entry goes first. */
module FossilCache {
  import opened Wrappers
  import opened Collections

  /** How many entries a cache of this capacity holds at most: a zero or
      negative capacity holds none. */
  function Room(capacity: int): nat {
    if capacity > 0 then capacity else 0
  }

  /** `d` after a hit on `k`: `k` becomes the most recent entry. */
  function Touch<K(==,!new), V>(d: ODict<K, V>, k: K): (r: ODict<K, V>)
    requires d.Valid() && k in d.vals
    ensures r.Valid() && r.vals == d.vals && |r.keys| == |d.keys|
    ensures r.keys[|r.keys| - 1] == k
    ensures r.keys[..|r.keys| - 1] == Without(d.keys, k)
  {
    ODict(Without(d.keys, k) + [k], d.vals)
  }

  /** A hit on the most recent entry changes nothing. */
  lemma TouchRecent<K(!new), V>(d: ODict<K, V>, k: K)
    requires d.Valid() && d.keys != [] && d.keys[|d.keys| - 1] == k
    ensures Touch(d, k) == d
  {
    var n := |d.keys|;
    WithoutAt(d.keys, n - 1);
    assert d.keys[..n - 1] + [k] == d.keys;
  }

  /** `cache[k] = v` on the entries `d`: nothing at capacity 0; otherwise an
      existing key is moved to the end with its new value, and a new key
      goes at the end after the oldest entry is evicted from a full cache;
      evicting from an empty dictionary raises `KeyError`. */
  function Store<K(==,!new), V>(capacity: int, d: ODict<K, V>, k: K, v: V): (r: Result<ODict<K, V>>)
    requires d.Valid()
    ensures r.Err? <==> capacity < 0 && k !in d.vals && d.keys == []
    ensures r.Ok? ==> r.value.Valid()
    ensures r.Ok? && |d.keys| <= Room(capacity) ==> |r.value.keys| <= Room(capacity)
    ensures capacity == 0 ==> r == Ok(d)
    ensures r.Ok? && capacity != 0 ==>
      r.value.Get(k) == Some(v) && r.value.keys[|r.value.keys| - 1] == k
    ensures r.Ok? ==> forall x :: x in d.vals && x != k && x in r.value.vals ==> r.value.vals[x] == d.vals[x]
    ensures r.Ok? ==> forall x :: x in d.vals && x !in r.value.vals ==>
      x == d.keys[0] && k !in d.vals && |d.keys| >= capacity != 0
    ensures capacity > 0 && k !in d.vals && |d.keys| >= capacity ==> r.Ok? && d.keys[0] !in r.value.vals
  {
    if capacity == 0 then Ok(d)
    else if k in d.vals then Ok(Moved(d, k, v))
    else if |d.keys| >= capacity then
      if d.keys == [] then Err("KeyError") else Ok(Evicted(d, k, v))
    else Ok(d.Set(k, v))
  }

  /** An existing key `k` moved to the end with the value `v`. */
  function Moved<K(==,!new), V>(d: ODict<K, V>, k: K, v: V): (r: ODict<K, V>)
    requires d.Valid() && k in d.vals
    ensures r.Valid() && r.vals == d.vals[k := v] && |r.keys| == |d.keys|
    ensures r.keys[|r.keys| - 1] == k
  {
    ODict(Without(d.keys, k) + [k], d.vals[k := v])
  }

  /** A new key `k` with the value `v` after the oldest entry. */
  function Evicted<K(==,!new), V>(d: ODict<K, V>, k: K, v: V): (r: ODict<K, V>)
    requires d.Valid() && k !in d.vals && d.keys != []
    ensures r.Valid() && r.vals == (d.vals - {d.keys[0]})[k := v]
    ensures r.keys == d.keys[1..] + [k]
  {
    d.PopFirst().value.0.Set(k, v)
  }

  /** `LRUCache(maxlen)`. */
  class LRUCache<K(==,!new), V> {
    const capacity: int
    var data: ODict<K, V>

    /** The entries, oldest first, and never more than the capacity allows. */
    ghost predicate Valid()
      reads this
    {
      data.Valid() && |data.keys| <= Room(capacity)
    }

    constructor (maxlen: int)
      ensures Valid() && capacity == maxlen && data == EmptyDict()
    {
      capacity := maxlen;
      data := EmptyDict();
    }

    /** `cache[key]`: a hit returns the value and makes the key the most
        recent; a miss raises `KeyError` and changes nothing. */
    method GetItem(key: K) returns (r: Result<V>)
      requires Valid()
      modifies this
      ensures Valid()
      ensures key in old(data.vals) ==> r == Ok(old(data.vals[key])) && data == Touch(old(data), key)
      ensures key !in old(data.vals) ==> r == Err("KeyError") && data == old(data)
    {
      var popped := data.Pop(key);
      if popped.1.None? {
        r := Err("KeyError");
      } else {
        var value := popped.1.value;
        PopKeys(data, key);
        assert popped.0.vals[key := value] == data.vals;
        data := popped.0.Set(key, value);
        r := Ok(value);
      }
    }

    /** `cache.get(key, default)`: as `cache[key]`, but a miss returns
        `default`. */
    method Get(key: K, default: V) returns (r: V)
      requires Valid()
      modifies this
      ensures Valid()
      ensures key in old(data.vals) ==> r == old(data.vals[key]) && data == Touch(old(data), key)
      ensures key !in old(data.vals) ==> r == default && data == old(data)
    {
      var popped := data.Pop(key);
      if popped.1.None? {
        r := default;
      } else {
        var value := popped.1.value;
        PopKeys(data, key);
        assert popped.0.vals[key := value] == data.vals;
        data := popped.0.Set(key, value);
        r := value;
      }
    }

    /** `cache[key] = value`. */
    method SetItem(key: K, value: V) returns (r: Result<()>)
      requires Valid()
      modifies this
      ensures Valid()
      ensures var s := Store(capacity, old(data), key, value);
        (s.Ok? ==> r == Ok(()) && data == s.value) && (s.Err? ==> r == Err(s.error) && data == old(data))
    {
      r := Ok(());
      if capacity != 0 {
        var popped := data.Pop(key);
        var rest := popped.0;
        if popped.1.Some? {
          PopKeys(data, key);
          data := rest.Set(key, value);
        } else if |data.keys| >= capacity {
          var oldest := data.PopFirst();
          if oldest.Err? {
            r := Err(oldest.error);
          } else {
            data := oldest.value.0.Set(key, value);
          }
        } else {
          data := data.Set(key, value);
        }
      }
    }
  }
}
