/**
 * A Python `dict` as the insertion-ordered list of its items. Assigning to a
 * key already present replaces its value where it stands; a new key goes to
 * the end. This is the order `dict.values()` and `dict.items()` report.
 */
module PyDict {
  import opened Wrappers

  type Dict<K, V> = seq<(K, V)>

  function Keys<K, V>(d: Dict<K, V>): (ks: seq<K>)
    ensures |ks| == |d| && forall i :: 0 <= i < |d| ==> ks[i] == d[i].0
  {
    seq(|d|, i requires 0 <= i < |d| => d[i].0)
  }

  /** `list(d.values())`. */
  function Values<K, V>(d: Dict<K, V>): (vs: seq<V>)
    ensures |vs| == |d| && forall i :: 0 <= i < |d| ==> vs[i] == d[i].1
  {
    seq(|d|, i requires 0 <= i < |d| => d[i].1)
  }

  ghost predicate Distinct<T>(s: seq<T>)
  {
    forall i, j :: 0 <= i < j < |s| ==> s[i] != s[j]
  }

  /** Every key is stored once, as in any dict. */
  ghost predicate WellFormed<K, V>(d: Dict<K, V>)
  {
    Distinct(Keys(d))
  }

  /** The position of the first `k` in `ks`. */
  function FirstPos<K(==)>(ks: seq<K>, k: K): (i: nat)
    requires k in ks
    ensures i < |ks| && ks[i] == k
    ensures forall j :: 0 <= j < i ==> ks[j] != k
  {
    if ks[0] == k then 0 else 1 + FirstPos(ks[1..], k)
  }

  lemma FirstPosUnique<K>(ks: seq<K>, k: K, i: nat)
    requires i < |ks| && ks[i] == k
    requires forall j :: 0 <= j < i ==> ks[j] != k
    ensures FirstPos(ks, k) == i
  {
  }

  /** `d[k]`; `None` is the `KeyError`. */
  function Lookup<K(==), V>(d: Dict<K, V>, k: K): (r: Option<V>)
    ensures r.None? <==> k !in Keys(d)
    ensures r.Some? ==> exists i :: 0 <= i < |d| && d[i] == (k, r.value)
  {
    if k in Keys(d) then
      var i := FirstPos(Keys(d), k);
      assert d[i] == (k, d[i].1);
      Some(d[i].1)
    else None
  }

  /** In a well-formed dict, `d[k] == v` exactly when `(k, v)` is one of its items. */
  lemma LookupItem<K, V>(d: Dict<K, V>, k: K, v: V)
    requires WellFormed(d)
    ensures Lookup(d, k) == Some(v) <==> exists i :: 0 <= i < |d| && d[i] == (k, v)
  {
    if i :| 0 <= i < |d| && d[i] == (k, v) {
      var j := FirstPos(Keys(d), k);
      assert Keys(d)[i] == Keys(d)[j];
    }
  }

  /** `d[k] = v`: a key already present keeps its place, a new key goes last. */
  function Store<K(==), V>(d: Dict<K, V>, k: K, v: V): (r: Dict<K, V>)
    ensures k in Keys(d) ==> |r| == |d| && Keys(r) == Keys(d)
    ensures k !in Keys(d) ==> r == d + [(k, v)]
  {
    if k in Keys(d) then
      var r := d[FirstPos(Keys(d), k) := (k, v)];
      assert Keys(r) == Keys(d);
      r
    else d + [(k, v)]
  }

  /** After `d[k] = v`, `d[k]` is `v` and every other key looks up what it did before. */
  lemma StoreLookup<K, V>(d: Dict<K, V>, k: K, v: V, k': K)
    ensures Lookup(Store(d, k, v), k) == Some(v)
    ensures k' != k ==> Lookup(Store(d, k, v), k') == Lookup(d, k')
  {
    var r := Store(d, k, v);
    if k !in Keys(d) {
      assert Keys(r) == Keys(d) + [k];
      if k' in Keys(d) {
        FirstPosUnique(Keys(r), k', FirstPos(Keys(d), k'));
      }
      FirstPosUnique(Keys(r), k, |d|);
    }
  }

  /** Storing keeps every key stored once. */
  lemma StoreWellFormed<K, V>(d: Dict<K, V>, k: K, v: V)
    requires WellFormed(d)
    ensures WellFormed(Store(d, k, v))
  {
    if k !in Keys(d) {
      var r := Store(d, k, v);
      assert Keys(r) == Keys(d) + [k];
    }
  }

  /** A dict display or comprehension: the items are stored from left to right. */
  function FromItems<K(==,!new), V>(items: seq<(K, V)>): (d: Dict<K, V>)
    ensures WellFormed(d)
    ensures forall k :: k in Keys(d) <==> k in Keys(items)
  {
    if |items| == 0 then []
    else
      var last := items[|items| - 1];
      var init := FromItems(items[..|items| - 1]);
      StoreWellFormed(init, last.0, last.1);
      StoreKeys(init, last.0, last.1);
      assert Keys(items) == Keys(items[..|items| - 1]) + [last.0];
      Store(init, last.0, last.1)
  }

  /** Storing adds its key to the keys and no other. */
  lemma StoreKeys<K, V>(d: Dict<K, V>, k: K, v: V)
    ensures forall k' :: k' in Keys(Store(d, k, v)) <==> k' in Keys(d) || k' == k
  {
    if k !in Keys(d) {
      assert Keys(Store(d, k, v)) == Keys(d) + [k];
    }
  }

  /** The keys of a prefix are the prefix of the keys. */
  lemma KeysOfPrefix<K, V>(items: seq<(K, V)>, n: nat)
    requires n <= |items|
    ensures Keys(items[..n]) == Keys(items)[..n]
  {
  }

  /** Dropping the last element keeps a list repeat-free, and that element is not among the rest. */
  lemma DistinctInit<T>(s: seq<T>)
    requires |s| > 0 && Distinct(s)
    ensures Distinct(s[..|s| - 1]) && s[|s| - 1] !in s[..|s| - 1]
  {
  }

  /** A non-empty list is its prefix followed by its last element. */
  lemma InitAndLast<T>(s: seq<T>)
    requires |s| > 0
    ensures s[..|s| - 1] + [s[|s| - 1]] == s
  {
  }

  /** Items with distinct keys come out of a display unchanged and in order. */
  lemma {:induction false} FromDistinctItems<K(!new), V>(items: seq<(K, V)>)
    requires Distinct(Keys(items))
    ensures FromItems(items) == items
  {
    if |items| > 0 {
      var n := |items|;
      var init, last := items[..n - 1], items[n - 1];
      KeysOfPrefix(items, n - 1);
      DistinctInit(Keys(items));
      FromDistinctItems(init);
      assert last.0 !in Keys(init);
      assert FromItems(items) == Store(FromItems(init), last.0, last.1);
      assert Store(init, last.0, last.1) == init + [last];
      InitAndLast(items);
    }
  }

  /** The items of `d` with key and value exchanged, in the same order. */
  function Swapped<K, V>(d: Dict<K, V>): (s: seq<(V, K)>)
    ensures |s| == |d| && forall i :: 0 <= i < |d| ==> s[i] == (d[i].1, d[i].0)
  {
    seq(|d|, i requires 0 <= i < |d| => (d[i].1, d[i].0))
  }

  /**
   * `{v: k for k, v in d.items()}`: a dict whose keys are exactly the values
   * of `d`, each once.
   */
  function Invert<K, V(==,!new)>(d: Dict<K, V>): (r: Dict<V, K>)
    ensures WellFormed(r)
    ensures forall v :: v in Keys(r) <==> v in Values(d)
  {
    assert Keys(Swapped(d)) == Values(d);
    FromItems(Swapped(d))
  }

  /**
   * When the values of `d` are distinct too, inverting keeps one item per
   * item of `d`, and the two dicts undo each other: `d[k] == v` exactly when
   * `inverse[v] == k`.
   */
  lemma InvertIsInverse<K, V(!new)>(d: Dict<K, V>)
    requires WellFormed(d) && Distinct(Values(d))
    ensures |Invert(d)| == |d| && Keys(Invert(d)) == Values(d) && Values(Invert(d)) == Keys(d)
    ensures forall k, v :: Lookup(d, k) == Some(v) <==> Lookup(Invert(d), v) == Some(k)
  {
    var s := Swapped(d);
    assert Keys(s) == Values(d);
    FromDistinctItems(s);
    forall k, v
      ensures Lookup(d, k) == Some(v) <==> Lookup(Invert(d), v) == Some(k)
    {
      LookupItem(d, k, v);
      LookupItem(s, v, k);
      if i :| 0 <= i < |s| && s[i] == (v, k) {
        assert d[i] == (k, v);
      }
    }
  }
}
