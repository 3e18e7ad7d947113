/** Order-preserving collections: the `uniq` helper both `bashvar.py` and
    `abbsmeta.py` define, and Python's insertion-ordered dictionary. */
module Collections {
  import opened Wrappers

  predicate NoDup<T(==,!new)>(s: seq<T>) {
    forall i, j :: 0 <= i < j < |s| ==> s[i] != s[j]
  }

  /** `uniq(seq)`: the elements of `s` at their first occurrence, in order. */
  function Uniq<T(==,!new)>(s: seq<T>): (r: seq<T>)
    ensures NoDup(r)
    ensures forall x :: x in r <==> x in s
    ensures |r| <= |s|
  {
    if s == [] then []
    else
      var init := s[..|s| - 1];
      var u := Uniq(init);
      assert forall x :: x in init ==> x in s;
      assert forall x :: x in s ==> x in init || x == s[|s| - 1];
      if s[|s| - 1] in init then u else u + [s[|s| - 1]]
  }

  /** Appending elements keeps the result of the shorter input as a prefix:
      each element keeps the slot of its first occurrence. */
  lemma {:induction false} UniqPrefix<T(!new)>(a: seq<T>, b: seq<T>)
    ensures |Uniq(a)| <= |Uniq(a + b)| && Uniq(a + b)[..|Uniq(a)|] == Uniq(a)
    decreases |b|
  {
    if b == [] {
      assert a + b == a;
    } else {
      var b' := b[..|b| - 1];
      UniqPrefix(a, b');
      assert (a + b)[..|a + b| - 1] == a + b';
    }
  }

  /** On an input without duplicates `uniq` is the identity. */
  lemma {:induction false} UniqOfNoDup<T(!new)>(s: seq<T>)
    requires NoDup(s)
    ensures Uniq(s) == s
  {
    if s != [] {
      var init := s[..|s| - 1];
      UniqOfNoDup(init);
      assert s[|s| - 1] !in init;
      assert init + [s[|s| - 1]] == s;
    }
  }

  /** `uniq` is idempotent. */
  lemma UniqIdempotent<T(!new)>(s: seq<T>)
    ensures Uniq(Uniq(s)) == Uniq(s)
  {
    UniqOfNoDup(Uniq(s));
  }

  /** A Python `OrderedDict` (or a plain `dict`, which keeps insertion order):
      the keys in insertion order and the mapping. */
  datatype ODict<K(==,!new), V> = ODict(keys: seq<K>, vals: map<K, V>) {

    ghost predicate Valid() {
      NoDup(keys) && (forall k :: k in vals <==> k in keys)
    }

    function Get(k: K): Option<V> {
      if k in vals then Some(vals[k]) else None
    }

    /** `d[k] = v`: a new key goes last, an existing key keeps its slot. */
    function Set(k: K, v: V): (r: ODict<K, V>)
      ensures Valid() ==> r.Valid()
      ensures r.vals == vals[k := v]
      ensures k in vals ==> r.keys == keys
      ensures k !in vals ==> r.keys == keys + [k]
    {
      if k in vals then ODict(keys, vals[k := v]) else ODict(keys + [k], vals[k := v])
    }

    /** `d.pop(k, None)`: the value, if any, and the dictionary without `k`. */
    function Pop(k: K): (r: (ODict<K, V>, Option<V>))
      requires Valid()
      ensures r.0.Valid()
      ensures r.1 == Get(k)
      ensures r.0.vals == vals - {k}
      ensures forall x :: x in r.0.vals <==> x in vals && x != k
      ensures k !in vals ==> r.0 == this
      ensures forall x :: x in r.0.keys ==> x in keys
    {
      if k !in vals then (this, None)
      else
        var i := IndexOf(keys, k);
        var keys' := keys[..i] + keys[i + 1..];
        RemoveAt(keys, i);
        (ODict(keys', vals - {k}), Some(vals[k]))
    }

    /** `d.popitem(last=False)`: the oldest entry and the dictionary without
        it; `KeyError` when the dictionary is empty. */
    function PopFirst(): (r: Result<(ODict<K, V>, K, V)>)
      requires Valid()
      ensures r.Err? <==> keys == []
      ensures r.Ok? ==>
        r.value.0.Valid() && r.value.0.keys == keys[1..] && r.value.0.vals == vals - {keys[0]}
        && r.value.1 == keys[0] && r.value.2 == vals[keys[0]]
    {
      if keys == [] then Err("KeyError")
      else
        RemoveAt(keys, 0);
        assert keys[..0] + keys[1..] == keys[1..];
        Ok((ODict(keys[1..], vals - {keys[0]}), keys[0], vals[keys[0]]))
    }

    /** `d.update(other)`: `other`'s keys assigned in `other`'s order. */
    function Update(other: ODict<K, V>): (r: ODict<K, V>)
      requires Valid() && other.Valid()
      ensures r.Valid()
      ensures r.vals.Keys == vals.Keys + other.vals.Keys
      ensures forall k :: k in other.vals ==> r.vals[k] == other.vals[k]
      ensures forall k :: k in vals && k !in other.vals ==> r.vals[k] == vals[k]
    {
      SetAll(other.keys, other.vals)
    }

    /** Assigns `src[k]` to each `k` of `ks` in turn. */
    function SetAll(ks: seq<K>, src: map<K, V>): (r: ODict<K, V>)
      requires Valid() && forall k :: k in ks ==> k in src
      ensures r.Valid()
      ensures r.vals.Keys == vals.Keys + (set k | k in ks)
      ensures forall k :: k in ks ==> r.vals[k] == src[k]
      ensures forall k :: k in vals && k !in ks ==> r.vals[k] == vals[k]
      decreases |ks|
    {
      if ks == [] then this
      else
        var k := ks[|ks| - 1];
        var d := SetAll(ks[..|ks| - 1], src);
        assert forall x :: x in ks ==> x in ks[..|ks| - 1] || x == k;
        d.Set(k, src[k])
    }

    /** `list(d.items())`. */
    function Items(): seq<(K, V)>
      requires Valid()
    {
      seq(|keys|, i requires 0 <= i < |keys| => (keys[i], vals[keys[i]]))
    }
  }

  /** Pops each of `ks` in turn, discarding the values. */
  function RemoveKeys<K(==,!new), V>(d: ODict<K, V>, ks: seq<K>): (r: ODict<K, V>)
    requires d.Valid()
    ensures r.Valid()
    ensures forall k :: k in r.vals <==> k in d.vals && k !in ks
    ensures forall k :: k in r.vals ==> r.vals[k] == d.vals[k]
  {
    if ks == [] then d
    else
      var r := RemoveKeys(d, ks[..|ks| - 1]).Pop(ks[|ks| - 1]).0;
      assert forall k :: k in ks <==> k in ks[..|ks| - 1] || k == ks[|ks| - 1];
      r
  }

  function EmptyDict<K(==,!new), V>(): (r: ODict<K, V>)
    ensures r.Valid() && r.keys == [] && r.vals == map[]
  {
    ODict([], map[])
  }

  function IndexOf<T(==,!new)>(s: seq<T>, x: T): (i: nat)
    requires x in s
    ensures i < |s| && s[i] == x && x !in s[..i]
  {
    if s[0] == x then 0 else 1 + IndexOf(s[1..], x)
  }

  /** Removing one element of a duplicate-free sequence removes exactly that
      value. */
  lemma RemoveAt<T(!new)>(s: seq<T>, i: nat)
    requires NoDup(s) && i < |s|
    ensures NoDup(s[..i] + s[i + 1..])
    ensures forall x :: x in s[..i] + s[i + 1..] <==> x in s && x != s[i]
  {
    var t := s[..i] + s[i + 1..];
    forall a, b | 0 <= a < b < |t| ensures t[a] != t[b] {
      var a' := if a < i then a else a + 1;
      var b' := if b < i then b else b + 1;
      assert t[a] == s[a'] && t[b] == s[b'];
    }
    forall x ensures x in t <==> x in s && x != s[i] {
      if x in s && x != s[i] {
        var j :| 0 <= j < |s| && s[j] == x;
        if j < i { assert t[j] == x; } else { assert t[j - 1] == x; }
      }
      if x in t {
        var j :| 0 <= j < |t| && t[j] == x;
        var j' := if j < i then j else j + 1;
        assert s[j'] == x && j' != i;
      }
    }
  }

  /** An element not yet present keeps a sequence free of duplicates. */
  lemma NoDupSnoc<T(!new)>(s: seq<T>, x: T)
    requires NoDup(s) && x !in s
    ensures NoDup(s + [x])
  {
  }

  /** Concatenation regroups; stated once so that proofs use it as a rewrite. */
  lemma AppendAssoc<T>(a: seq<T>, b: seq<T>, c: seq<T>)
    ensures (a + b) + c == a + (b + c)
  {
  }

  /** `s` without `x`, the order of the rest kept. */
  function Without<T(==,!new)>(s: seq<T>, x: T): (r: seq<T>)
    ensures forall y :: y in r <==> y in s && y != x
    ensures x !in s ==> r == s
    ensures NoDup(s) ==> NoDup(r) && |r| == if x in s then |s| - 1 else |s|
  {
    if s == [] then []
    else
      var t := Without(s[1..], x);
      assert s == [s[0]] + s[1..];
      assert NoDup(s) ==> NoDup(s[1..]) && s[0] !in s[1..];
      if s[0] == x then t else [s[0]] + t
  }

  /** In a duplicate-free sequence, removing the value at `i` removes the
      element at `i`. */
  lemma {:induction false} WithoutAt<T(!new)>(s: seq<T>, i: nat)
    requires NoDup(s) && i < |s|
    ensures Without(s, s[i]) == s[..i] + s[i + 1..]
  {
    if i == 0 {
      assert s[i] !in s[1..];
    } else {
      var t := s[1..];
      assert NoDup(t);
      assert t[i - 1] == s[i] && s[0] != s[i];
      WithoutAt(t, i - 1);
      assert [s[0]] + (t[..i - 1] + t[i..]) == s[..i] + s[i + 1..];
    }
  }

  /** `pop` keeps the order of the other keys. */
  lemma PopKeys<K(!new), V>(d: ODict<K, V>, k: K)
    requires d.Valid()
    ensures d.Pop(k).0.keys == Without(d.keys, k)
  {
    if k in d.vals {
      var i := IndexOf(d.keys, k);
      assert d.Pop(k).0.keys == d.keys[..i] + d.keys[i + 1..];
      WithoutAt(d.keys, i);
    }
  }
}
