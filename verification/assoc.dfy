/**
 * PHP's ordered arrays as association lists: a sequence of (key, value)
 * pairs that remembers insertion order. Assigning to an existing key keeps
 * its position and replaces the value; a new key is appended.
 */
module Assoc {
  import opened Wrappers
  import opened Seqs

  type Assoc<K, V> = seq<(K, V)>

  /** The keys in iteration order (PHP `array_keys`). */
  function Keys<K, V>(a: Assoc<K, V>): (ks: seq<K>)
    ensures |ks| == |a|
    ensures forall i :: 0 <= i < |a| ==> ks[i] == a[i].0
  {
    seq(|a|, i requires 0 <= i < |a| => a[i].0)
  }

  /** Every key occurs once, as in a PHP array. */
  predicate DistinctKeys<K(==), V>(a: Assoc<K, V>) {
    Distinct(Keys(a))
  }

  /** Position of the first entry with key `k`. */
  function IndexOf<K(==), V>(a: Assoc<K, V>, k: K): (i: nat)
    requires k in Keys(a)
    ensures i < |a| && a[i].0 == k
    ensures forall j :: 0 <= j < i ==> a[j].0 != k
  {
    if a[0].0 == k then 0 else 1 + IndexOf(a[1..], k)
  }

  /** The first entry with key `k` is the one `IndexOf` finds. */
  lemma IndexOfUnique<K, V>(a: Assoc<K, V>, k: K, i: nat)
    requires i < |a| && a[i].0 == k
    requires forall j :: 0 <= j < i ==> a[j].0 != k
    ensures k in Keys(a) && IndexOf(a, k) == i
  {
    assert Keys(a)[i] == k;
  }

  /** `isset($a[$k]) ? $a[$k] : null` (stored values are never null). */
  function Get<K(==), V>(a: Assoc<K, V>, k: K): (r: Option<V>)
    ensures r.Some? <==> k in Keys(a)
  {
    if k in Keys(a) then Some(a[IndexOf(a, k)].1) else None
  }

  /** In a PHP array the entry stored at a key is the one `Get` returns. */
  lemma GetAt<K, V>(a: Assoc<K, V>, i: nat)
    requires DistinctKeys(a) && i < |a|
    ensures Get(a, a[i].0) == Some(a[i].1)
  {
    assert Keys(a)[i] == a[i].0;
  }

  /** `$a[$k] = $v`. */
  function Put<K(==,!new), V>(a: Assoc<K, V>, k: K, v: V): (r: Assoc<K, V>)
    ensures Get(r, k) == Some(v)
    ensures forall k' :: k' != k ==> Get(r, k') == Get(a, k')
    ensures Keys(r) == if k in Keys(a) then Keys(a) else Keys(a) + [k]
    ensures DistinctKeys(a) ==> DistinctKeys(r)
  {
    if k in Keys(a) then
      var i := IndexOf(a, k);
      var r := a[i := (k, v)];
      assert Keys(r) == Keys(a);
      assert Get(r, k) == Some(v) by { assert IndexOf(r, k) == i; }
      assert forall k' :: k' != k ==> Get(r, k') == Get(a, k') by {
        forall k' | k' != k
          ensures Get(r, k') == Get(a, k')
        {
          if k' in Keys(a) {
            IndexOfUnique(r, k', IndexOf(a, k'));
          }
        }
      }
      r
    else
      var r := a + [(k, v)];
      assert Keys(r) == Keys(a) + [k];
      assert Get(r, k) == Some(v) by { assert IndexOf(r, k) == |a|; }
      assert forall k' :: k' != k ==> Get(r, k') == Get(a, k') by {
        forall k' | k' != k
          ensures Get(r, k') == Get(a, k')
        {
          if k' in Keys(a) {
            IndexOfUnique(r, k', IndexOf(a, k'));
          }
        }
      }
      r
  }
}
