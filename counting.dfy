/** Bags: dictionaries from feature strings to counts, the shape every bag
    builder fills with `if key not in bag: bag[key] = 0` followed by
    `bag[key] += 1`. */
module Counting {

  type Bag = map<string, int>

  /** A value of the bag, 0 for a missing key. */
  function Get(bag: Bag, key: string): int
  {
    if key in bag then bag[key] else 0
  }

  /** The bag after `if key not in bag: bag[key] = 0` and `bag[key] += w`. */
  function Add(bag: Bag, key: string, w: int): (r: Bag)
    ensures r.Keys == bag.Keys + {key}
    ensures r[key] == Get(bag, key) + w
    ensures forall k :: k in bag && k != key ==> r[k] == bag[k]
  {
    bag[key := Get(bag, key) + w]
  }

  /** The bag after adding 1 for each key in turn, starting from `{}`. */
  function Tally(keys: seq<string>): (r: Bag)
    ensures forall k :: k in r ==> k in keys
    ensures forall k :: k in r ==> 0 < r[k] <= |keys|
  {
    if |keys| == 0 then map[] else Add(Tally(keys[..|keys| - 1]), keys[|keys| - 1], 1)
  }

  /** The sum of the values of a map. */
  ghost function Weight<K>(m: map<K, int>): int
    decreases |m|
  {
    if |m| == 0 then 0
    else
      var k := Pick(m);
      m[k] + Weight(m - {k})
  }

  ghost function Pick<K>(m: map<K, int>): (k: K)
    requires |m| > 0
    ensures k in m
  {
    assert m.Keys != {} by { assert |m.Keys| == |m|; }
    var k :| k in m.Keys; k
  }

  /** The sum does not depend on which key is taken out first. */
  lemma {:induction false} WeightRemove<K>(m: map<K, int>, k: K)
    requires k in m
    ensures Weight(m) == m[k] + Weight(m - {k})
    decreases |m|
  {
    var j := Pick(m);
    if j != k {
      WeightRemove(m - {j}, k);
      WeightRemove(m - {k}, j);
      assert m - {j} - {k} == m - {k} - {j};
    }
  }

  /** A new key adds its value to the sum. */
  lemma WeightInsert<K>(m: map<K, int>, k: K, w: int)
    requires k !in m
    ensures Weight(m[k := w]) == Weight(m) + w
  {
    WeightRemove(m[k := w], k);
    assert m[k := w] - {k} == m;
  }

  /** Adding w to the value of one key, present or not, adds w to the sum. */
  lemma WeightUpdate<K>(m: map<K, int>, k: K, w: int)
    ensures Weight(m[k := (if k in m then m[k] else 0) + w]) == Weight(m) + w
  {
    var r := m[k := (if k in m then m[k] else 0) + w];
    WeightRemove(r, k);
    if k in m {
      WeightRemove(m, k);
      assert r - {k} == m - {k};
    } else {
      assert r - {k} == m;
    }
  }

  /** Adding w to one key adds w to the sum. */
  lemma AddWeight(bag: Bag, key: string, w: int)
    ensures Weight(Add(bag, key, w)) == Weight(bag) + w
  {
    WeightUpdate(bag, key, w);
    assert Add(bag, key, w) == bag[key := (if key in bag then bag[key] else 0) + w];
  }

  /** Each key is counted as often as it occurs, and only keys that occur are present. */
  lemma {:induction false} TallyCounts(keys: seq<string>)
    ensures forall k :: k in Tally(keys) <==> k in keys
    ensures forall k :: k in Tally(keys) ==> Tally(keys)[k] == multiset(keys)[k]
  {
    if |keys| > 0 {
      var init, last := keys[..|keys| - 1], keys[|keys| - 1];
      TallyCounts(init);
      assert keys == init + [last];
    }
  }

  /** The counts add up to the number of keys tallied. */
  lemma {:induction false} TallyWeight(keys: seq<string>)
    ensures Weight(Tally(keys)) == |keys|
  {
    if |keys| == 0 {
      assert Tally(keys) == map[];
    } else {
      TallyWeight(keys[..|keys| - 1]);
      AddWeight(Tally(keys[..|keys| - 1]), keys[|keys| - 1], 1);
    }
  }

  /** Tallying the same keys in another order gives the same bag. */
  lemma TallyPermutation(a: seq<string>, b: seq<string>)
    requires multiset(a) == multiset(b)
    ensures Tally(a) == Tally(b)
  {
    TallyCounts(a);
    TallyCounts(b);
    forall k
      ensures k in a <==> k in b
    {
      assert k in a <==> k in multiset(a);
      assert k in b <==> k in multiset(b);
    }
  }

  /** One more key at the end adds 1 to its count. */
  lemma TallySnoc(keys: seq<string>, key: string)
    ensures Tally(keys + [key]) == Add(Tally(keys), key, 1)
  {
    assert (keys + [key])[..|keys|] == keys;
  }

  /** One more key of a list being tallied in order. */
  lemma TallyStep(keys: seq<string>, i: nat)
    requires i < |keys|
    ensures Tally(keys[..i + 1]) == Add(Tally(keys[..i]), keys[i], 1)
  {
    assert keys[..i + 1][..i] == keys[..i];
  }

  /** One more key of a list tallied after the keys already done. */
  lemma TallyStepAfter(done: seq<string>, keys: seq<string>, i: nat)
    requires i < |keys|
    ensures Tally(done + keys[..i + 1]) == Add(Tally(done + keys[..i]), keys[i], 1)
  {
    assert done + keys[..i + 1] == done + keys[..i] + [keys[i]];
    TallySnoc(done + keys[..i], keys[i]);
  }

  // ---------------------------------------------------------------------------
  // Keys produced group by group

  /** The groups of keys one after the other. */
  function Flatten<T>(xss: seq<seq<T>>): seq<T>
  {
    if |xss| == 0 then [] else Flatten(xss[..|xss| - 1]) + xss[|xss| - 1]
  }

  /** The number of keys in all groups. */
  function TotalLength<T>(xss: seq<seq<T>>): nat
  {
    if |xss| == 0 then 0 else TotalLength(xss[..|xss| - 1]) + |xss[|xss| - 1]|
  }

  /** One more group. */
  lemma FlattenSnoc<T>(xss: seq<seq<T>>, r: nat)
    requires r < |xss|
    ensures Flatten(xss[..r + 1]) == Flatten(xss[..r]) + xss[r]
    ensures TotalLength(xss[..r + 1]) == TotalLength(xss[..r]) + |xss[r]|
  {
    assert xss[..r + 1][..r] == xss[..r];
  }

  lemma {:induction false} FlattenLength<T>(xss: seq<seq<T>>)
    ensures |Flatten(xss)| == TotalLength(xss)
  {
    if |xss| > 0 {
      FlattenLength(xss[..|xss| - 1]);
    }
  }

  /** Every key of every group is in the result. */
  lemma {:induction false} FlattenHas<T>(xss: seq<seq<T>>, i: nat, j: nat)
    requires i < |xss| && j < |xss[i]|
    ensures xss[i][j] in Flatten(xss)
  {
    var n := |xss| - 1;
    FlattenSnoc(xss, n);
    assert xss[..n + 1] == xss;
    if i < n {
      FlattenHas(xss[..n], i, j);
      assert xss[..n][i] == xss[i];
    } else {
      assert Flatten(xss) == Flatten(xss[..n]) + xss[n];
      assert xss[n][j] == Flatten(xss)[|Flatten(xss[..n])| + j];
    }
  }

  /** Every key of the result comes from some group. */
  lemma {:induction false} FlattenSource<T>(xss: seq<seq<T>>, k: T) returns (i: nat, j: nat)
    requires k in Flatten(xss)
    ensures i < |xss| && j < |xss[i]| && xss[i][j] == k
  {
    var n := |xss| - 1;
    FlattenSnoc(xss, n);
    assert xss[..n + 1] == xss;
    if k in Flatten(xss[..n]) {
      i, j := FlattenSource(xss[..n], k);
      assert xss[..n][i] == xss[i];
    } else {
      i := n;
      var f := Flatten(xss[..n]);
      var p :| 0 <= p < |Flatten(xss)| && Flatten(xss)[p] == k;
      j := p - |f|;
      assert Flatten(xss)[p] == xss[n][j];
    }
  }
}
