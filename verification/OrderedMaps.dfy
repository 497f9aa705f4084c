/**
 * A JavaScript `Map` as the sequence of its entries in insertion order: setting a key
 * that is there keeps its place, setting a new key appends it.
 */
module OrderedMaps {
  import opened Prelude

  function Get<K(==), V>(m: seq<(K, V)>, key: K): Option<V> {
    if m == [] then None
    else if m[0].0 == key then Some(m[0].1)
    else Get(m[1..], key)
  }

  function Set<K(==), V>(m: seq<(K, V)>, key: K, value: V): seq<(K, V)> {
    if m == [] then [(key, value)]
    else if m[0].0 == key then [(key, value)] + m[1..]
    else [m[0]] + Set(m[1..], key, value)
  }

  /** The entries left once every key from `key` on is deleted. */
  function Below<V>(m: seq<(nat, V)>, key: nat): seq<(nat, V)> {
    if m == [] then []
    else if m[0].0 < key then [m[0]] + Below(m[1..], key)
    else Below(m[1..], key)
  }

  /** The keys, in insertion order, are `base`, `base + 1`, ... without a gap. */
  ghost predicate Contiguous<V>(m: seq<(nat, V)>, base: nat) {
    forall i :: 0 <= i < |m| ==> m[i].0 == base + i
  }

  lemma {:induction false} ContiguousTail<V>(m: seq<(nat, V)>, base: nat)
    requires m != [] && Contiguous(m, base)
    ensures Contiguous(m[1..], base + 1)
  {
  }

  lemma {:induction false} GetContiguous<V>(m: seq<(nat, V)>, base: nat, key: nat)
    requires Contiguous(m, base)
    ensures Get(m, key) == if base <= key < base + |m| then Some(m[key - base].1) else None
  {
    if m != [] && m[0].0 != key {
      ContiguousTail(m, base);
      GetContiguous(m[1..], base + 1, key);
    }
  }

  lemma {:induction false} SetContiguous<V>(m: seq<(nat, V)>, base: nat, key: nat, value: V)
    requires Contiguous(m, base)
    requires base <= key <= base + |m|
    ensures Set(m, key, value)
            == if key < base + |m| then m[key - base := (key, value)] else m + [(key, value)]
  {
    if m != [] && m[0].0 != key {
      ContiguousTail(m, base);
      SetContiguous(m[1..], base + 1, key, value);
      assert m == [m[0]] + m[1..];
    }
  }

  lemma {:induction false} BelowContiguous<V>(m: seq<(nat, V)>, base: nat, key: nat)
    requires Contiguous(m, base)
    requires base <= key <= base + |m|
    ensures Below(m, key) == m[..key - base]
  {
    if m != [] {
      ContiguousTail(m, base);
      if base < key {
        BelowContiguous(m[1..], base + 1, key);
        assert m[..key - base] == [m[0]] + m[1..][..key - base - 1];
      } else {
        BelowAll(m[1..], base + 1, key);
      }
    }
  }

  lemma {:induction false} BelowAll<V>(m: seq<(nat, V)>, base: nat, key: nat)
    requires Contiguous(m, base) && key <= base
    ensures Below(m, key) == []
  {
    if m != [] {
      ContiguousTail(m, base);
      BelowAll(m[1..], base + 1, key);
    }
  }

  function Delete<K(==), V>(m: seq<(K, V)>, key: K): seq<(K, V)> {
    if m == [] then []
    else if m[0].0 == key then m[1..]
    else [m[0]] + Delete(m[1..], key)
  }

  lemma {:induction false} SetInPlace<K, V>(m: seq<(K, V)>, i: nat, value: V)
    requires i < |m|
    requires forall j :: 0 <= j < i ==> m[j].0 != m[i].0
    ensures |Set(m, m[i].0, value)| == |m|
    ensures forall j :: 0 <= j < |m| ==> Set(m, m[i].0, value)[j] == if j == i then (m[i].0, value) else m[j]
  {
    if i > 0 {
      assert m[1..][i - 1] == m[i] && m[0].0 != m[i].0;
      SetInPlace(m[1..], i - 1, value);
    }
  }

  lemma {:induction false} DeleteAt<K, V>(m: seq<(K, V)>, i: nat)
    requires i < |m|
    requires forall j :: 0 <= j < i ==> m[j].0 != m[i].0
    ensures Delete(m, m[i].0) == m[..i] + m[i + 1..]
  {
    if i > 0 {
      assert m[1..][i - 1] == m[i];
      DeleteAt(m[1..], i - 1);
      assert m[..i] == [m[0]] + m[1..][..i - 1];
    } else {
      assert m[..0] + m[1..] == m[1..];
    }
  }
}
