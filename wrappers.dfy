/** The optional value used where the source has `undefined` or a failed request. */
module Wrappers {
  datatype Option<+T> = None | Some(value: T)
}

/** Small facts about sequences shared by the translation services. */
module Seqs {
  /** No element occurs twice: a pending list of phrases, the keys of a response object. */
  predicate Distinct<T(==)>(s: seq<T>)
  {
    forall i, j :: 0 <= i < j < |s| ==> s[i] != s[j]
  }

  /** The first components of a list of pairs, i.e. the keys of an object in key order. */
  function Keys<K, V>(kvs: seq<(K, V)>): (ks: seq<K>)
    ensures |ks| == |kvs|
    ensures forall k :: 0 <= k < |kvs| ==> ks[k] == kvs[k].0
  {
    seq(|kvs|, k requires 0 <= k < |kvs| => kvs[k].0)
  }

  /** `m[k] = v` for each pair in order: a later pair for the same key wins. */
  function Publish<K, V>(m: map<K, V>, kvs: seq<(K, V)>): map<K, V>
    decreases |kvs|
  {
    if kvs == [] then m else Publish(m[kvs[0].0 := kvs[0].1], kvs[1..])
  }

  /** The keys after publishing: the old ones and the published ones. */
  lemma {:induction false} PublishKeys<K, V>(m: map<K, V>, kvs: seq<(K, V)>)
    ensures forall q :: q in Publish(m, kvs) <==> q in m || q in Keys(kvs)
    decreases |kvs|
  {
    if kvs != [] {
      PublishKeys(m[kvs[0].0 := kvs[0].1], kvs[1..]);
      assert Keys(kvs) == [kvs[0].0] + Keys(kvs[1..]);
    }
  }

  /** Publishing distinct keys leaves each key's own value and the other keys as they were. */
  lemma {:induction false} PublishValues<K, V>(m: map<K, V>, kvs: seq<(K, V)>)
    requires Distinct(Keys(kvs))
    ensures forall k :: 0 <= k < |kvs| ==> kvs[k].0 in Publish(m, kvs) && Publish(m, kvs)[kvs[k].0] == kvs[k].1
    ensures forall q :: q in m && q !in Keys(kvs) ==> q in Publish(m, kvs) && Publish(m, kvs)[q] == m[q]
    decreases |kvs|
  {
    if kvs != [] {
      var rest := kvs[1..];
      assert Keys(kvs) == [kvs[0].0] + Keys(rest);
      assert Distinct(Keys(rest)) by {
        forall i, j | 0 <= i < j < |rest| ensures Keys(rest)[i] != Keys(rest)[j] {
          assert Keys(kvs)[i + 1] != Keys(kvs)[j + 1];
        }
      }
      PublishValues(m[kvs[0].0 := kvs[0].1], rest);
      forall k | 0 < k < |kvs| ensures kvs[k].0 != kvs[0].0 {
        assert Keys(kvs)[0] != Keys(kvs)[k];
      }
      PublishKeys(m[kvs[0].0 := kvs[0].1], rest);
    }
  }
}
