/** Insertion-ordered lists with one entry per key: in-place update, append, and order-preserving removal. */
module KeyedList {
  import opened Words

  /** The first position that holds `k`, or the length. */
  function IndexOf<T, K(==)>(list: seq<T>, key: T -> K, k: K): (i: nat)
    ensures i <= |list|
    ensures i < |list| ==> key(list[i]) == k
    ensures forall j :: 0 <= j < i ==> key(list[j]) != k
  {
    if list == [] || key(list[0]) == k then 0 else 1 + IndexOf(list[1..], key, k)
  }

  ghost predicate HasKey<T, K>(list: seq<T>, key: T -> K, k: K) {
    exists i :: 0 <= i < |list| && key(list[i]) == k
  }

  ghost predicate Distinct<T, K>(list: seq<T>, key: T -> K) {
    forall i, j :: 0 <= i < j < |list| ==> key(list[i]) != key(list[j])
  }

  function Upsert<T, K(==)>(list: seq<T>, key: T -> K, item: T): seq<T> {
    var i := IndexOf(list, key, key(item));
    if i < |list| then list[i := item] else list + [item]
  }

  function Remove<T, K(==)>(list: seq<T>, key: T -> K, k: K): seq<T> {
    var i := IndexOf(list, key, k);
    if i < |list| then list[..i] + list[i + 1..] else list
  }

  function Keys<T, K(==)>(list: seq<T>, key: T -> K): (ks: seq<K>)
    ensures |ks| == |list| && forall i :: 0 <= i < |ks| ==> ks[i] == key(list[i])
  {
    seq(|list|, i requires 0 <= i < |list| => key(list[i]))
  }

  ghost function AsMap<T, K(!new)>(list: seq<T>, key: T -> K): (m: map<K, T>)
    requires Distinct(list, key)
    ensures forall k :: k in m <==> HasKey(list, key, k)
    ensures forall i :: 0 <= i < |list| ==> key(list[i]) in m && m[key(list[i])] == list[i]
  {
    map i | 0 <= i < |list| :: key(list[i]) := list[i]
  }

  /** The keys without `k`, the others in their old order. */
  function Without<K(==)>(ks: seq<K>, k: K): seq<K> {
    if ks == [] then [] else if ks[0] == k then Without(ks[1..], k) else [ks[0]] + Without(ks[1..], k)
  }

  lemma IndexOfFirst<T, K(!new)>(list: seq<T>, key: T -> K, k: K, i: nat)
    requires i <= |list| && (i < |list| ==> key(list[i]) == k)
    requires forall j :: 0 <= j < i ==> key(list[j]) != k
    ensures IndexOf(list, key, k) == i
  {
  }

  /** An upsert is a map update that leaves the order of the known keys alone and puts a new one last. */
  lemma UpsertIsMapUpdate<T, K(!new)>(list: seq<T>, key: T -> K, item: T)
    requires Distinct(list, key)
    ensures Distinct(Upsert(list, key, item), key)
    ensures AsMap(Upsert(list, key, item), key) == AsMap(list, key)[key(item) := item]
    ensures Keys(Upsert(list, key, item), key) ==
            if HasKey(list, key, key(item)) then Keys(list, key) else Keys(list, key) + [key(item)]
  {
    UpsertKeys(list, key, item);
    var m, m' := AsMap(list, key), AsMap(Upsert(list, key, item), key);
    forall k | k in m'
      ensures m'[k] == m[key(item) := item][k]
    {
      UpsertLookup(list, key, item, k);
    }
    MapPlus(m, m', key(item), item);
  }

  lemma MapPlus<K(!new), V>(m: map<K, V>, m': map<K, V>, k: K, v: V)
    requires forall k' :: k' in m' <==> k' in m || k' == k
    requires forall k' :: k' in m' ==> m'[k'] == m[k := v][k']
    ensures m' == m[k := v]
  {
  }

  lemma UpsertLookup<T, K(!new)>(list: seq<T>, key: T -> K, item: T, k: K)
    requires Distinct(list, key) && Distinct(Upsert(list, key, item), key)
    requires HasKey(Upsert(list, key, item), key, k) && (HasKey(list, key, k) || k == key(item))
    ensures AsMap(Upsert(list, key, item), key)[k] == AsMap(list, key)[key(item) := item][k]
  {
    var after := Upsert(list, key, item);
    var j :| 0 <= j < |after| && key(after[j]) == k;
    assert after[j] == item || (j < |list| && after[j] == list[j] && k != key(item));
  }

  lemma UpsertKeys<T, K(!new)>(list: seq<T>, key: T -> K, item: T)
    requires Distinct(list, key)
    ensures Distinct(Upsert(list, key, item), key)
    ensures forall k :: HasKey(Upsert(list, key, item), key, k) <==> HasKey(list, key, k) || k == key(item)
    ensures Keys(Upsert(list, key, item), key) ==
            if HasKey(list, key, key(item)) then Keys(list, key) else Keys(list, key) + [key(item)]
  {
    var i := IndexOf(list, key, key(item));
    var after := Upsert(list, key, item);
    assert key(after[i]) == key(item);
    forall k | HasKey(list, key, k)
      ensures HasKey(after, key, k)
    {
      var j :| 0 <= j < |list| && key(list[j]) == k;
      assert key(after[j]) == k;
    }
  }

  function MapValues<K, V>(m: map<K, V>, f: V -> V): map<K, V> {
    map k | k in m :: f(m[k])
  }

  /** Changing every entry without touching its key changes the values of the map and nothing else. */
  lemma SameKeysMapped<T, K(!new)>(list: seq<T>, list': seq<T>, key: T -> K, f: T -> T)
    requires Distinct(list, key) && |list'| == |list|
    requires forall i :: 0 <= i < |list| ==> key(list'[i]) == key(list[i]) && list'[i] == f(list[i])
    ensures Distinct(list', key) && Keys(list', key) == Keys(list, key)
    ensures AsMap(list', key) == MapValues(AsMap(list, key), f)
  {
    var m' := MapValues(AsMap(list, key), f);
    SameKeys(list, list', key);
    forall i | 0 <= i < |list'|
      ensures key(list'[i]) in m' && m'[key(list'[i])] == list'[i]
    {
      assert AsMap(list, key)[key(list[i])] == list[i];
    }
    IsAsMap(list', key, m');
  }

  lemma SameKeys<T, K(!new)>(list: seq<T>, list': seq<T>, key: T -> K)
    requires |list'| == |list| && forall i :: 0 <= i < |list| ==> key(list'[i]) == key(list[i])
    ensures Distinct(list, key) ==> Distinct(list', key)
    ensures Keys(list', key) == Keys(list, key)
    ensures forall k :: HasKey(list, key, k) ==> HasKey(list', key, k)
  {
    forall k | HasKey(list, key, k)
      ensures HasKey(list', key, k)
    {
      var i :| 0 <= i < |list| && key(list[i]) == k;
      assert key(list'[i]) == k;
    }
  }

  /** The map of a list is determined by its entries and its keys. */
  lemma IsAsMap<T, K(!new)>(list: seq<T>, key: T -> K, m: map<K, T>)
    requires Distinct(list, key)
    requires forall i :: 0 <= i < |list| ==> key(list[i]) in m && m[key(list[i])] == list[i]
    requires forall k :: k in m ==> HasKey(list, key, k)
    ensures AsMap(list, key) == m
  {
    forall k | k in m
      ensures AsMap(list, key)[k] == m[k]
    {
      var i :| 0 <= i < |list| && key(list[i]) == k;
    }
  }

  /** A removal is a map removal that keeps the order of the remaining keys. */
  lemma RemoveIsMapRemoval<T, K(!new)>(list: seq<T>, key: T -> K, k: K)
    requires Distinct(list, key)
    ensures Distinct(Remove(list, key, k), key)
    ensures AsMap(Remove(list, key, k), key) == AsMap(list, key) - {k}
    ensures Keys(Remove(list, key, k), key) == Without(Keys(list, key), k)
  {
    RemoveDistinct(list, key, k);
    RemoveKeys(list, key, k);
    RemoveMap(list, key, k);
  }

  lemma RemoveMap<T, K(!new)>(list: seq<T>, key: T -> K, k: K)
    requires Distinct(list, key) && Distinct(Remove(list, key, k), key)
    requires forall k' :: HasKey(Remove(list, key, k), key, k') <==> HasKey(list, key, k') && k' != k
    ensures AsMap(Remove(list, key, k), key) == AsMap(list, key) - {k}
  {
    var m, m' := AsMap(list, key), AsMap(Remove(list, key, k), key);
    forall k' | k' in m'
      ensures m'[k'] == m[k']
    {
      RemoveLookup(list, key, k, k');
    }
    MapMinus(m, m', k);
  }

  lemma MapMinus<K(!new), V>(m: map<K, V>, m': map<K, V>, k: K)
    requires forall k' :: k' in m' <==> k' in m && k' != k
    requires forall k' :: k' in m' ==> m'[k'] == m[k']
    ensures m' == m - {k}
  {
  }

  lemma RemoveLookup<T, K(!new)>(list: seq<T>, key: T -> K, k: K, k': K)
    requires Distinct(list, key) && Distinct(Remove(list, key, k), key)
    requires HasKey(Remove(list, key, k), key, k') && HasKey(list, key, k')
    ensures AsMap(Remove(list, key, k), key)[k'] == AsMap(list, key)[k']
  {
    var after := Remove(list, key, k);
    var j :| 0 <= j < |after| && key(after[j]) == k';
    var i := IndexOf(list, key, k);
    assert after[j] == list[if j < i then j else j + 1];
  }

  /** A removal only drops an element. */
  lemma RemoveElements<T, K(!new)>(list: seq<T>, key: T -> K, k: K)
    ensures forall i :: 0 <= i < |Remove(list, key, k)| ==> Remove(list, key, k)[i] in list
  {
    var j, after := IndexOf(list, key, k), Remove(list, key, k);
    forall i | 0 <= i < |after|
      ensures after[i] in list
    {
      assert after[i] == list[if i < j then i else i + 1];
    }
  }

  lemma RemoveDistinct<T, K>(list: seq<T>, key: T -> K, k: K)
    requires Distinct(list, key)
    ensures Distinct(Remove(list, key, k), key) && !HasKey(Remove(list, key, k), key, k)
    ensures forall k' :: k' != k ==> (HasKey(Remove(list, key, k), key, k') <==> HasKey(list, key, k'))
  {
    var i := IndexOf(list, key, k);
    var after := Remove(list, key, k);
    assert forall j :: 0 <= j < |after| ==> after[j] == list[if j < i then j else j + 1];
    forall k' | k' != k && HasKey(list, key, k')
      ensures HasKey(after, key, k')
    {
      var j :| 0 <= j < |list| && key(list[j]) == k';
      assert list[j] == after[if j < i then j else j - 1];
    }
  }

  lemma {:induction false} RemoveKeys<T, K(!new)>(list: seq<T>, key: T -> K, k: K)
    requires Distinct(list, key)
    ensures Keys(Remove(list, key, k), key) == Without(Keys(list, key), k)
  {
    if list != [] {
      var rest := list[1..];
      KeysOfTail(list, key);
      if key(list[0]) == k {
        assert Remove(list, key, k) == rest;
        NothingWithout(rest, key, k);
      } else {
        RemoveKeys(rest, key, k);
        RemoveFromTail(list, key, k);
        KeysOfTail(Remove(list, key, k), key);
        assert Without(Keys(list, key), k) == [key(list[0])] + Without(Keys(rest, key), k);
      }
    }
  }

  lemma KeysOfTail<T, K(!new)>(list: seq<T>, key: T -> K)
    requires list != []
    ensures Keys(list, key)[0] == key(list[0]) && Keys(list, key)[1..] == Keys(list[1..], key)
    ensures Keys(list, key) == [key(list[0])] + Keys(list[1..], key)
  {
  }

  lemma RemoveFromTail<T, K(!new)>(list: seq<T>, key: T -> K, k: K)
    requires list != [] && key(list[0]) != k
    ensures Remove(list, key, k) == [list[0]] + Remove(list[1..], key, k)
  {
    var i, rest := IndexOf(list, key, k), list[1..];
    assert i == 1 + IndexOf(rest, key, k);
    assert list == [list[0]] + rest;
    if i < |list| {
      assert list[..i] == [list[0]] + rest[..i - 1];
      assert list[i + 1..] == rest[i..];
    }
  }

  lemma {:induction false} NothingWithout<T, K(!new)>(list: seq<T>, key: T -> K, k: K)
    requires forall i :: 0 <= i < |list| ==> key(list[i]) != k
    ensures Without(Keys(list, key), k) == Keys(list, key)
  {
    if list != [] {
      assert Keys(list, key)[1..] == Keys(list[1..], key);
      NothingWithout(list[1..], key, k);
    }
  }

  // ── Dropping the last entry ────────────────────────────────────────────────

  function WithoutLast<T>(list: seq<T>): seq<T> {
    if list == [] then [] else list[..|list| - 1]
  }

  function LastKey<T, K>(list: seq<T>, key: T -> K): Option<K> {
    if list == [] then None else Some(key(list[|list| - 1]))
  }

  /** The key of the last entry that has another key than `k`. */
  function LastOtherKey<T, K(==)>(list: seq<T>, key: T -> K, k: K): Option<K> {
    if list == [] then None
    else if key(list[|list| - 1]) != k then LastKey(list, key)
    else LastOtherKey(list[..|list| - 1], key, k)
  }

  /** `q` is in the list, and is neither `k` nor the last of the others. */
  ghost predicate Remains<T, K(!new)>(list: seq<T>, key: T -> K, k: K, q: K) {
    HasKey(list, key, q) && q != k && LastOtherKey(list, key, k) != Some(q)
  }

  lemma WithoutLastKeys<T, K(!new)>(list: seq<T>, key: T -> K, q: K)
    requires Distinct(list, key)
    ensures Distinct(WithoutLast(list), key)
    ensures HasKey(WithoutLast(list), key, q) <==> HasKey(list, key, q) && LastKey(list, key) != Some(q)
  {
    if list != [] {
      var n := |list| - 1;
      if HasKey(list, key, q) && key(list[n]) != q {
        var i :| 0 <= i < |list| && key(list[i]) == q;
        assert key(list[..n][i]) == q;
      }
      if HasKey(list[..n], key, q) {
        var i :| 0 <= i < n && key(list[..n][i]) == q;
        assert key(list[i]) == q && key(list[i]) != key(list[n]);
      }
    }
  }

  /** An upsert followed by the loss of the last entry: nothing happened to a list that did not know the key. */
  lemma WithoutLastOfUpsert<T, K(!new)>(list: seq<T>, key: T -> K, item: T)
    ensures !HasKey(list, key, key(item)) ==> WithoutLast(Upsert(list, key, item)) == list
    ensures HasKey(list, key, key(item)) ==> WithoutLast(Upsert(list, key, item)) != list
  {
    assert HasKey(list, key, key(item)) <==> IndexOf(list, key, key(item)) < |list|;
  }

  lemma KeysAfterUpsertAndLoss<T, K(!new)>(list: seq<T>, key: T -> K, item: T, q: K)
    requires Distinct(list, key)
    ensures Distinct(WithoutLast(Upsert(list, key, item)), key)
    ensures HasKey(WithoutLast(Upsert(list, key, item)), key, q) <==>
            HasKey(if HasKey(list, key, key(item)) then WithoutLast(list) else list, key, q)
  {
    var after := Upsert(list, key, item);
    UpsertKeys(list, key, item);
    WithoutLastKeys(after, key, q);
    WithoutLastKeys(list, key, q);
    WithoutLastOfUpsert(list, key, item);
    if HasKey(list, key, key(item)) {
      assert Keys(after, key) == Keys(list, key);
      assert LastKey(after, key) == (if Keys(list, key) == [] then None else Some(Keys(list, key)[|list| - 1]));
    }
  }

  lemma KeysAfterRemoveAndLoss<T, K(!new)>(list: seq<T>, key: T -> K, k: K, q: K)
    requires Distinct(list, key)
    ensures Distinct(WithoutLast(Remove(list, key, k)), key)
    ensures HasKey(WithoutLast(Remove(list, key, k)), key, q) <==> Remains(list, key, k, q)
  {
    RemoveDistinct(list, key, k);
    WithoutLastKeys(Remove(list, key, k), key, q);
    LastKeyOfRemove(list, key, k);
  }

  lemma {:induction false} LastKeyOfRemove<T, K(!new)>(list: seq<T>, key: T -> K, k: K)
    requires Distinct(list, key)
    ensures LastKey(Remove(list, key, k), key) == LastOtherKey(list, key, k)
  {
    var after, i := Remove(list, key, k), IndexOf(list, key, k);
    if list != [] {
      var n := |list| - 1;
      if key(list[n]) == k {
        IndexOfFirst(list, key, k, n);
        assert after == list[..n];
        LastOtherAbsent(list[..n], key, k);
      } else if i < |list| {
        assert after[|after| - 1] == list[n];
      }
    }
  }

  lemma LastOtherAbsent<T, K(!new)>(list: seq<T>, key: T -> K, k: K)
    requires forall i :: 0 <= i < |list| ==> key(list[i]) != k
    ensures LastOtherKey(list, key, k) == LastKey(list, key)
  {
  }

  // ── Counting by injection ──────────────────────────────────────────────────

  ghost function KeySet<T, K>(list: seq<T>, key: T -> K): set<K> {
    set i | 0 <= i < |list| :: key(list[i])
  }

  lemma {:induction false} DistinctKeysCount<T, K(!new)>(list: seq<T>, key: T -> K)
    requires Distinct(list, key)
    ensures |KeySet(list, key)| == |list|
  {
    if list != [] {
      var n := |list| - 1;
      DistinctKeysCount(list[..n], key);
      assert KeySet(list, key) == KeySet(list[..n], key) + {key(list[n])};
    }
  }

  lemma SubsetCount<T(!new)>(a: set<T>, b: set<T>)
    requires a <= b
    ensures |a| <= |b|
  {
    if a != {} {
      var x :| x in a;
      SubsetCount(a - {x}, b - {x});
    }
  }

  /** A list whose distinct keys all occur in another list is no longer than it. */
  lemma NoLongerThan<S, T, K(!new)>(a: seq<S>, keyA: S -> K, b: seq<T>, keyB: T -> K)
    requires Distinct(a, keyA) && Distinct(b, keyB)
    requires forall i :: 0 <= i < |a| ==> HasKey(b, keyB, keyA(a[i]))
    ensures |a| <= |b|
  {
    DistinctKeysCount(a, keyA);
    DistinctKeysCount(b, keyB);
    SubsetCount(KeySet(a, keyA), KeySet(b, keyB));
  }
}
