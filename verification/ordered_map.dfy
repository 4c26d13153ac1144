/** Python's insertion-ordered `dict`, as a sequence of key/value pairs.
    Assigning to a present key replaces its value in place; assigning to an
    absent key appends it. A dict comprehension, or a loop of assignments,
    is a left fold of `Put` over the keys. */
module OrderedMap {

  import opened Results

  /** The keys, in insertion order. */
  function Keys<K, V>(m: seq<(K, V)>): (ks: seq<K>)
    ensures |ks| == |m|
    ensures forall i :: 0 <= i < |m| ==> ks[i] == m[i].0
  {
    if |m| == 0 then [] else [m[0].0] + Keys(m[1..])
  }

  /** No key occurs twice. */
  predicate Distinct<K(==)>(ks: seq<K>) {
    forall i, j :: 0 <= i < j < |ks| ==> ks[i] != ks[j]
  }

  /** `m[k]`, or `None` when `k` is not a key. */
  function Get<K(==), V>(m: seq<(K, V)>, k: K): (r: Option<V>)
    ensures r.Some? <==> k in Keys(m)
  {
    if |m| == 0 then None
    else if m[0].0 == k then Some(m[0].1)
    else Get(m[1..], k)
  }

  /** `m[k] = v`: a present key keeps its place, an absent one is appended,
      and afterwards `k` maps to `v`. */
  function Put<K(==), V>(m: seq<(K, V)>, k: K, v: V): (r: seq<(K, V)>)
    ensures k in Keys(m) ==> Keys(r) == Keys(m)
    ensures k !in Keys(m) ==> Keys(r) == Keys(m) + [k]
    ensures Get(r, k) == Some(v)
  {
    if |m| == 0 then [(k, v)]
    else if m[0].0 == k then [(k, v)] + m[1..]
    else
      var rest := Put(m[1..], k, v);
      assert Keys(m) == [m[0].0] + Keys(m[1..]);
      [m[0]] + rest
  }

  /** Assigning to `k` leaves every other key's value unchanged. */
  lemma {:induction false} PutOther<K, V>(m: seq<(K, V)>, k: K, v: V, other: K)
    requires other != k
    ensures Get(Put(m, k, v), other) == Get(m, other)
  {
    if |m| > 0 && m[0].0 != k {
      PutOther(m[1..], k, v, other);
    }
  }

  /** `{k: f(k) for k in ks}`: one entry per distinct key of `ks`. */
  function FromKeys<K(==,!new), V>(ks: seq<K>, f: K -> V): (m: seq<(K, V)>)
    ensures Distinct(Keys(m))
    ensures forall k :: k in Keys(m) <==> k in ks
    ensures |m| <= |ks|
  {
    if |ks| == 0 then []
    else
      var n := |ks| - 1;
      assert ks == ks[..n] + [ks[n]];
      Put(FromKeys(ks[..n], f), ks[n], f(ks[n]))
  }

  /** Every requested key maps to its computed value. */
  lemma {:induction false} FromKeysGet<K(!new), V>(ks: seq<K>, f: K -> V, k: K)
    requires k in ks
    ensures Get(FromKeys(ks, f), k) == Some(f(k))
  {
    var n := |ks| - 1;
    if ks[n] != k {
      assert ks == ks[..n] + [ks[n]];
      FromKeysGet(ks[..n], f, k);
      PutOther(FromKeys(ks[..n], f), ks[n], f(ks[n]), k);
    }
  }

  /** The position of the first occurrence of `k` in `ks`. */
  function FirstIndex<K(==)>(ks: seq<K>, k: K): (i: nat)
    requires k in ks
    ensures i < |ks| && ks[i] == k
    ensures forall j :: 0 <= j < i ==> ks[j] != k
  {
    if ks[0] == k then 0 else 1 + FirstIndex(ks[1..], k)
  }

  /** A position holding `k` with no `k` before it is the first one. */
  lemma {:induction false} FirstIndexUnique<K>(ks: seq<K>, k: K, i: nat)
    requires i < |ks| && ks[i] == k
    requires forall j :: 0 <= j < i ==> ks[j] != k
    ensures FirstIndex(ks, k) == i
  {
  }

  /** A key that occurs in the first `n` entries first occurs at the same
      position in the whole sequence, before `n`. */
  lemma {:induction false} FirstIndexPrefix<K>(ks: seq<K>, n: nat, k: K)
    requires n <= |ks|
    requires k in ks[..n]
    ensures k in ks
    ensures FirstIndex(ks, k) == FirstIndex(ks[..n], k) < n
  {
    var i := FirstIndex(ks[..n], k);
    assert ks[i] == ks[..n][i];
    forall j | 0 <= j < i
      ensures ks[j] != k
    {
      assert ks[j] == ks[..n][j];
    }
    FirstIndexUnique(ks, k, i);
  }

  /** `keys` lists keys of `ks`, ordered by where each first occurs in `ks`. */
  predicate FirstOccurrenceOrder<K(==)>(keys: seq<K>, ks: seq<K>) {
    && (forall i :: 0 <= i < |keys| ==> keys[i] in ks)
    && (forall i, j :: 0 <= i < j < |keys| ==> FirstIndex(ks, keys[i]) < FirstIndex(ks, keys[j]))
  }

  /** The keys of a dict comprehension grow by the last requested key
      exactly when it was not requested before. */
  lemma {:induction false} FromKeysStep<K(!new), V>(ks: seq<K>, f: K -> V)
    requires |ks| > 0
    ensures ks[|ks| - 1] in ks[..|ks| - 1] ==>
              Keys(FromKeys(ks, f)) == Keys(FromKeys(ks[..|ks| - 1], f))
    ensures ks[|ks| - 1] !in ks[..|ks| - 1] ==>
              Keys(FromKeys(ks, f)) == Keys(FromKeys(ks[..|ks| - 1], f)) + [ks[|ks| - 1]]
  {
    var n := |ks| - 1;
    var m := FromKeys(ks[..n], f);
    assert FromKeys(ks, f) == Put(m, ks[n], f(ks[n]));
    assert ks[n] in Keys(m) <==> ks[n] in ks[..n];
  }

  /** A dict comprehension keeps each key where it first occurred: its keys
      are the distinct requested keys, ordered by first occurrence, whether or
      not the request repeats a key. */
  lemma {:induction false} FromKeysFirstOrder<K(!new), V>(ks: seq<K>, f: K -> V)
    ensures FirstOccurrenceOrder(Keys(FromKeys(ks, f)), ks)
  {
    if |ks| > 0 {
      var n := |ks| - 1;
      var front := ks[..n];
      FromKeysFirstOrder(front, f);
      FromKeysStep(ks, f);
      var before := Keys(FromKeys(front, f));
      FirstOccurrenceExtend(before, ks, n);
      if ks[n] !in front {
        FirstOccurrenceNewLast(before, ks);
      }
    }
  }

  /** A last key that does not occur earlier first occurs after every key
      that first occurs in the earlier part, so appending it keeps the
      first-occurrence order. */
  lemma {:induction false} FirstOccurrenceNewLast<K>(keys: seq<K>, ks: seq<K>)
    requires |ks| > 0
    requires ks[|ks| - 1] !in ks[..|ks| - 1]
    requires FirstOccurrenceOrder(keys, ks)
    requires forall i :: 0 <= i < |keys| ==> FirstIndex(ks, keys[i]) < |ks| - 1
    ensures FirstOccurrenceOrder(keys + [ks[|ks| - 1]], ks)
  {
    var n := |ks| - 1;
    forall j | 0 <= j < n
      ensures ks[j] != ks[n]
    {
      assert ks[j] == ks[..n][j];
    }
    FirstIndexUnique(ks, ks[n], n);
    FirstOccurrenceAppend(keys, ks, ks[n]);
  }

  /** Keys in first-occurrence order for a prefix of `ks` stay in that order
      for the whole of `ks`, and all first occur within the prefix. */
  lemma {:induction false} FirstOccurrenceExtend<K>(keys: seq<K>, ks: seq<K>, n: nat)
    requires n <= |ks|
    requires FirstOccurrenceOrder(keys, ks[..n])
    ensures FirstOccurrenceOrder(keys, ks)
    ensures forall i :: 0 <= i < |keys| ==> FirstIndex(ks, keys[i]) < n
  {
    forall i | 0 <= i < |keys|
      ensures keys[i] in ks && FirstIndex(ks, keys[i]) == FirstIndex(ks[..n], keys[i]) < n
    {
      FirstIndexPrefix(ks, n, keys[i]);
    }
  }

  /** Appending a key that first occurs after every listed key keeps the
      first-occurrence order. */
  lemma {:induction false} FirstOccurrenceAppend<K>(keys: seq<K>, ks: seq<K>, k: K)
    requires k in ks
    requires forall i :: 0 <= i < |keys| ==> keys[i] in ks && FirstIndex(ks, keys[i]) < FirstIndex(ks, k)
    requires forall i, j :: 0 <= i < j < |keys| ==> FirstIndex(ks, keys[i]) < FirstIndex(ks, keys[j])
    ensures FirstOccurrenceOrder(keys + [k], ks)
  {
    var r := keys + [k];
    forall i, j | 0 <= i < j < |r|
      ensures FirstIndex(ks, r[i]) < FirstIndex(ks, r[j])
    {
      if j < |keys| {
        assert r[i] == keys[i] && r[j] == keys[j];
      } else {
        assert r[i] == keys[i] && r[j] == k;
      }
    }
  }

  /** Requesting `x`, `x` again and then `y` gives the keys `x`, `y`. */
  lemma {:induction false} FromKeysRepeat<K(!new), V>(x: K, y: K, f: K -> V)
    requires x != y
    ensures Keys(FromKeys([x, x, y], f)) == [x, y]
  {
    assert [x, x, y][..2] == [x, x];
    assert [x, x][..1] == [x];
    assert [x][..0] == [];
    FromKeysStep([x], f);
    FromKeysStep([x, x], f);
    FromKeysStep([x, x, y], f);
  }

  /** When the requested keys are distinct, the dict holds them in the
      order requested. */
  lemma {:induction false} FromKeysOrder<K(!new), V>(ks: seq<K>, f: K -> V)
    requires Distinct(ks)
    ensures Keys(FromKeys(ks, f)) == ks
  {
    if |ks| > 0 {
      var n := |ks| - 1;
      assert Distinct(ks[..n]);
      FromKeysOrder(ks[..n], f);
      assert ks[n] !in ks[..n];
      assert ks == ks[..n] + [ks[n]];
    }
  }
}
