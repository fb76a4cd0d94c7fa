/** `bag_to_fvec`: a bag of feature strings becomes a sparse vector by feature
    hashing. Each key is hashed with MurmurHash3; the low `bits` bits of the
    hash choose the dimension, bit 31 chooses the sign, and the key's count,
    with that sign, is added to the dimension. Keys whose hashes collide in the
    low bits share a dimension. On request the function also returns, for
    every dimension, the set of keys that landed there. */
module FeatureHasher {
  import opened Bits
  import opened Murmur3
  import opened Counting
  import opened Wrappers

  /** A sparse feature vector: dimension to value. */
  type Vector = map<nat, int>

  /** For each dimension, the keys hashed to it. */
  type Index = map<nat, set<string>>

  /** The hash of each key. */
  type Hashes = map<string, U32>

  // ---------------------------------------------------------------------------
  // Specification

  /** The character codes `ord` yields for a key. */
  function Codes(key: string): (codes: seq<nat>)
    ensures |codes| == |key|
    ensures forall i :: 0 <= i < |key| ==> codes[i] == key[i] as nat
  {
    seq(|key|, i requires 0 <= i < |key| => key[i] as nat)
  }

  /** `murmur3(key)` with the default seed 0: for any key shorter than 2^32
      characters, MurmurHash3_x86_32 of the low bytes of its codes. */
  function KeyHash(key: string): (h: U32)
    ensures |key| < M ==> h == Hash(Low8(Codes(key), |key|), 0)
  {
    CodesHash(key);
    HashOfCodes(Codes(key), 0)
  }

  /** For a key shorter than 2^32 characters, nothing of its length or of
      the seed 0 is lost to the masks. */
  lemma CodesHash(key: string)
    ensures |key| < M ==> HashOfCodes(Codes(key), 0) == Hash(Low8(Codes(key), |key|), 0)
  {
    SmallMod(0);
    if |key| < M {
      SmallMod(|key|);
    }
  }

  /** The hash of every key of a bag. */
  function KeyHashes(bag: Bag): (hs: Hashes)
    ensures hs.Keys == bag.Keys
  {
    map k | k in bag :: KeyHash(k)
  }

  /** Every entry of the table is the key's hash. The trigger keeps the
      definition of the hash out of proofs that only look the table up. */
  predicate HashesAgree(hs: Hashes)
  {
    forall k {:trigger KeyHash(k)} :: k in hs ==> hs[k] == KeyHash(k)
  }

  /** The dimension a hash selects: its low `bits` bits. */
  function DimOf(h: nat, bits: nat): (d: nat)
    ensures d < Pow2(bits)
  {
    h % Pow2(bits)
  }

  /** The sign a hash selects: +1 for a hash in the upper half of the 32-bit
      range, -1 for one in the lower half. */
  function SignOf(h: U32): (s: int)
    ensures s == 1 || s == -1
    ensures s == 1 <==> (h / Pow2(31)) % 2 == 1
  {
    Pow2Values();
    if h >= 0x8000_0000 then
      DivModUnique(h, 0x8000_0000, 1, h - 0x8000_0000);
      1
    else
      DivModUnique(h, 0x8000_0000, 0, h);
      -1
  }

  /** The dimension of a key. */
  function Dim(key: string, bits: nat): nat
  {
    DimOf(KeyHash(key), bits)
  }

  /** The sign of a key. */
  function Sign(key: string): int
  {
    SignOf(KeyHash(key))
  }

  /** Keys that are in the bag and have a hash. */
  predicate Covered(bag: Bag, hs: Hashes, keys: set<string>)
  {
    keys <= bag.Keys && keys <= hs.Keys
  }

  /** The signed counts of the given keys that land on dimension d. */
  function Contributions(bag: Bag, hs: Hashes, keys: set<string>, bits: nat, d: nat): map<string, int>
  {
    map k | k in keys && k in bag && k in hs && DimOf(hs[k], bits) == d :: SignOf(hs[k]) * bag[k]
  }

  /** The signed counts of the given keys, before any of them are merged. */
  function Signed(bag: Bag, hs: Hashes, keys: set<string>): map<string, int>
  {
    map k | k in keys && k in bag && k in hs :: SignOf(hs[k]) * bag[k]
  }

  /** Some key of a non-empty set. */
  ghost function PickKey(keys: set<string>): (k: string)
    requires keys != {}
    ensures k in keys
  {
    var k :| k in keys; k
  }

  /** A vector after `if d not in v: v[d] = 0` and `v[d] += w`. */
  function Bump(v: Vector, d: nat, w: int): Vector
  {
    v[d := (if d in v then v[d] else 0) + w]
  }

  /** An index after `key` is filed under dimension d. */
  function AddKey(index: Index, d: nat, key: string): Index
  {
    index[d := (if d in index then index[d] else {}) + {key}]
  }

  /** The vector the given keys add up to, each key bumping its dimension by
      its signed count. */
  ghost function Hashed(bag: Bag, hs: Hashes, keys: set<string>, bits: nat): Vector
    requires Covered(bag, hs, keys)
    decreases |keys|
  {
    if keys == {} then map[]
    else
      var k := PickKey(keys);
      Bump(Hashed(bag, hs, keys - {k}, bits), DimOf(hs[k], bits), SignOf(hs[k]) * bag[k])
  }

  /** The dimension-to-keys index of the given keys, each key filed under its
      dimension. */
  ghost function Buckets(bag: Bag, hs: Hashes, keys: set<string>, bits: nat): Index
    requires Covered(bag, hs, keys)
    decreases |keys|
  {
    if keys == {} then map[]
    else
      var k := PickKey(keys);
      AddKey(Buckets(bag, hs, keys - {k}, bits), DimOf(hs[k], bits), k)
  }

  /** The feature vector of a whole bag. */
  ghost function FeatureVector(bag: Bag, bits: nat): Vector
  {
    Hashed(bag, KeyHashes(bag), bag.Keys, bits)
  }

  /** The dimension-to-keys index of a whole bag. */
  ghost function ReverseIndex(bag: Bag, bits: nat): Index
  {
    Buckets(bag, KeyHashes(bag), bag.Keys, bits)
  }

  /** The signed counts of the bag's keys that land on dimension d. */
  function DimContributions(bag: Bag, bits: nat, d: nat): map<string, int>
  {
    map k | k in bag && Dim(k, bits) == d :: Sign(k) * bag[k]
  }

  // ---------------------------------------------------------------------------
  // The conversion

  /** `bag_to_fvec`. The keys are taken in an arbitrary order, so the result
      holds for every order in which a dictionary may yield them. */
  method BagToFvec(bag: Bag, bits: nat := 24, fmap: bool := false) returns (fvec: Vector, hashes: Option<Index>)
    ensures fvec == FeatureVector(bag, bits)
    ensures fmap ==> hashes == Some(ReverseIndex(bag, bits))
    ensures !fmap ==> hashes == None
  {
    fvec, hashes := HashAll(bag, bits, fmap, KeyHashes(bag));
  }

  /** The loop of `bag_to_fvec`, given as a ghost the hash each key will get. */
  method HashAll(bag: Bag, bits: nat, fmap: bool, ghost hs: Hashes) returns (fvec: Vector, hashes: Option<Index>)
    requires hs.Keys == bag.Keys && HashesAgree(hs)
    ensures fvec == Hashed(bag, hs, bag.Keys, bits)
    ensures fmap ==> hashes == Some(Buckets(bag, hs, bag.Keys, bits))
    ensures !fmap ==> hashes == None
  {
    fvec := map[];
    var index: Index := map[];
    var rest := bag.Keys;
    ghost var done: set<string> := {};
    while rest != {}
      invariant rest + done == bag.Keys && rest !! done
      invariant fvec == Hashed(bag, hs, done, bits)
      invariant fmap ==> index == Buckets(bag, hs, done, bits)
      decreases |rest|
    {
      var key :| key in rest;
      fvec, index := TakeKey(bag, bits, fmap, key, fvec, index, hs, done);
      rest := rest - {key};
      done := done + {key};
    }
    assert done == bag.Keys;
    hashes := if fmap then Some(index) else None;
  }

  /** One pass of the loop: the key's signed count goes to its dimension
      and, when asked for, the key goes into that dimension's bucket. */
  method TakeKey(bag: Bag, bits: nat, fmap: bool, key: string, fvec: Vector, index: Index, ghost hs: Hashes, ghost done: set<string>)
    returns (fvec': Vector, index': Index)
    requires key in bag && key in hs && key !in done && Covered(bag, hs, done) && HashesAgree(hs)
    requires fvec == Hashed(bag, hs, done, bits)
    requires fmap ==> index == Buckets(bag, hs, done, bits)
    ensures fvec' == Hashed(bag, hs, done + {key}, bits)
    ensures fmap ==> index' == Buckets(bag, hs, done + {key}, bits)
  {
    var dim, sign := HashKey(key, bits, hs);
    assert (done + {key}) - {key} == done;
    HashedRemove(bag, hs, done + {key}, bits, key);
    fvec' := AddToDimension(fvec, dim, sign * bag[key]);
    index' := index;
    if fmap {
      BucketsRemove(bag, hs, done + {key}, bits, key);
      index' := AddToBucket(index, dim, key);
    }
  }

  /** The dimension and the sign of one key, computed from its hash with
      `hash & (1 << bits) - 1` and `2 * (hash >> 31) - 1`. */
  method HashKey(key: string, bits: nat, ghost hs: Hashes) returns (dim: nat, sign: int)
    requires key in hs && HashesAgree(hs)
    ensures dim == DimOf(hs[key], bits) && sign == SignOf(hs[key])
  {
    var h := Murmur3.Murmur3(Codes(key));
    assert h == KeyHash(key);
    dim := And(h, Shl(1, bits) - 1);
    sign := 2 * Shr(h, 31) - 1;
    DimOfHash(h, bits);
    SignOfHash(h);
  }

  /** `if dim not in fvec: fvec[dim] = 0` and `fvec[dim] += w`. */
  method AddToDimension(fvec: Vector, dim: nat, w: int) returns (fvec': Vector)
    ensures fvec' == Bump(fvec, dim, w)
  {
    fvec' := fvec;
    if dim !in fvec' {
      fvec' := fvec'[dim := 0];
    }
    fvec' := fvec'[dim := fvec'[dim] + w];
  }

  /** `if dim not in hashes: hashes[dim] = set()` and, unless it is there
      already, `hashes[dim].add(key)`. */
  method AddToBucket(index: Index, dim: nat, key: string) returns (index': Index)
    ensures index' == AddKey(index, dim, key)
  {
    index' := index;
    if dim !in index' {
      index' := index'[dim := {}];
    }
    if key !in index'[dim] {
      index' := index'[dim := index'[dim] + {key}];
    } else {
      assert index'[dim] + {key} == index'[dim];
    }
  }

  // ---------------------------------------------------------------------------
  // Properties

  /** `hash & (1 << bits) - 1` is the dimension the hash selects. */
  lemma DimOfHash(h: nat, bits: nat)
    ensures And(h, Shl(1, bits) - 1) == DimOf(h, bits)
  {
    AndLowMask(h, bits);
  }

  /** `2 * (hash >> 31) - 1` is the sign the hash selects. */
  lemma SignOfHash(h: U32)
    ensures 2 * Shr(h, 31) - 1 == SignOf(h)
  {
    Pow2Values();
    if h >= 0x8000_0000 {
      DivModUnique(h, 0x8000_0000, 1, h - 0x8000_0000);
    } else {
      DivModUnique(h, 0x8000_0000, 0, h);
    }
  }

  /** Bumping a dimension by w adds w to the sum of the vector. */
  lemma WeightBump(v: Vector, d: nat, w: int)
    ensures Weight(Bump(v, d, w)) == Weight(v) + w
  {
    WeightUpdate(v, d, w);
  }

  lemma BumpCommutes(v: Vector, d1: nat, w1: int, d2: nat, w2: int)
    ensures Bump(Bump(v, d1, w1), d2, w2) == Bump(Bump(v, d2, w2), d1, w1)
  {
  }

  lemma AddKeyCommutes(index: Index, d1: nat, k1: string, d2: nat, k2: string)
    ensures AddKey(AddKey(index, d1, k1), d2, k2) == AddKey(AddKey(index, d2, k2), d1, k1)
  {
    if d1 == d2 {
      assert ({} + {k1}) + {k2} == ({} + {k2}) + {k1};
      if d1 in index {
        assert (index[d1] + {k1}) + {k2} == (index[d1] + {k2}) + {k1};
      }
    }
  }

  /** The vector does not depend on the order the keys are taken in: any key
      may be the last one. */
  lemma {:induction false} HashedRemove(bag: Bag, hs: Hashes, keys: set<string>, bits: nat, k: string)
    requires Covered(bag, hs, keys) && k in keys
    ensures Hashed(bag, hs, keys, bits) == Bump(Hashed(bag, hs, keys - {k}, bits), DimOf(hs[k], bits), SignOf(hs[k]) * bag[k])
    decreases |keys|
  {
    var j := PickKey(keys);
    if j != k {
      var rest := keys - {j} - {k};
      HashedRemove(bag, hs, keys - {j}, bits, k);
      HashedRemove(bag, hs, keys - {k}, bits, j);
      assert keys - {k} - {j} == rest;
      BumpCommutes(Hashed(bag, hs, rest, bits), DimOf(hs[k], bits), SignOf(hs[k]) * bag[k], DimOf(hs[j], bits), SignOf(hs[j]) * bag[j]);
    }
  }

  /** The index does not depend on the order the keys are taken in. */
  lemma {:induction false} BucketsRemove(bag: Bag, hs: Hashes, keys: set<string>, bits: nat, k: string)
    requires Covered(bag, hs, keys) && k in keys
    ensures Buckets(bag, hs, keys, bits) == AddKey(Buckets(bag, hs, keys - {k}, bits), DimOf(hs[k], bits), k)
    decreases |keys|
  {
    var j := PickKey(keys);
    if j != k {
      var rest := keys - {j} - {k};
      BucketsRemove(bag, hs, keys - {j}, bits, k);
      BucketsRemove(bag, hs, keys - {k}, bits, j);
      assert keys - {k} - {j} == rest;
      AddKeyCommutes(Buckets(bag, hs, rest, bits), DimOf(hs[k], bits), k, DimOf(hs[j], bits), j);
    }
  }

  /** Each key's dimension is present, and each present dimension is some key's. */
  lemma {:induction false} HashedDomain(bag: Bag, hs: Hashes, keys: set<string>, bits: nat, d: nat) returns (k: string)
    requires Covered(bag, hs, keys)
    ensures d in Hashed(bag, hs, keys, bits) ==> k in keys && DimOf(hs[k], bits) == d
    ensures forall j :: j in keys ==> DimOf(hs[j], bits) in Hashed(bag, hs, keys, bits)
    decreases |keys|
  {
    if keys == {} {
      k := "";
    } else {
      var p := PickKey(keys);
      k := HashedDomain(bag, hs, keys - {p}, bits, d);
      if d == DimOf(hs[p], bits) {
        k := p;
      }
    }
  }

  /** One more key adds its signed count to the contributions to its own
      dimension and to no other. */
  lemma ContributionsStep(bag: Bag, hs: Hashes, done: set<string>, bits: nat, key: string, e: nat)
    requires key in bag && key in hs && key !in done
    ensures e == DimOf(hs[key], bits) ==>
      Contributions(bag, hs, done + {key}, bits, e) == Contributions(bag, hs, done, bits, e)[key := SignOf(hs[key]) * bag[key]]
    ensures e != DimOf(hs[key], bits) ==> Contributions(bag, hs, done + {key}, bits, e) == Contributions(bag, hs, done, bits, e)
    ensures key !in Contributions(bag, hs, done, bits, e)
  {
  }

  /** Each dimension holds the sum of the signed counts of the keys that land
      on it; a dimension that is absent receives none. */
  lemma {:induction false} HashedValue(bag: Bag, hs: Hashes, keys: set<string>, bits: nat, d: nat)
    requires Covered(bag, hs, keys)
    ensures d in Hashed(bag, hs, keys, bits) ==> Hashed(bag, hs, keys, bits)[d] == Weight(Contributions(bag, hs, keys, bits, d))
    ensures d !in Hashed(bag, hs, keys, bits) ==> Contributions(bag, hs, keys, bits, d) == map[]
    decreases |keys|
  {
    if keys == {} {
      assert Contributions(bag, hs, keys, bits, d) == map[];
    } else {
      var p := PickKey(keys);
      var rest := keys - {p};
      HashedValue(bag, hs, rest, bits, d);
      assert rest + {p} == keys;
      ContributionsStep(bag, hs, rest, bits, p, d);
      var before, w := Hashed(bag, hs, rest, bits), SignOf(hs[p]) * bag[p];
      assert Hashed(bag, hs, keys, bits) == Bump(before, DimOf(hs[p], bits), w);
      if d == DimOf(hs[p], bits) {
        WeightInsert(Contributions(bag, hs, rest, bits, d), p, w);
        assert Hashed(bag, hs, keys, bits)[d] == (if d in before then before[d] else 0) + w;
      } else {
        assert d in Hashed(bag, hs, keys, bits) <==> d in before;
      }
    }
  }

  /** The bucket of dimension d holds exactly the keys that land on d. */
  lemma {:induction false} BucketAt(bag: Bag, hs: Hashes, keys: set<string>, bits: nat, d: nat)
    requires Covered(bag, hs, keys)
    ensures d in Buckets(bag, hs, keys, bits) <==> d in Hashed(bag, hs, keys, bits)
    ensures forall k :: d in Buckets(bag, hs, keys, bits) && k in Buckets(bag, hs, keys, bits)[d] <==> k in keys && DimOf(hs[k], bits) == d
    decreases |keys|
  {
    if keys != {} {
      var p := PickKey(keys);
      BucketAt(bag, hs, keys - {p}, bits, d);
    }
  }

  /** Hashing merges collisions but loses nothing: the dimensions add up to
      the signed counts of all keys. */
  lemma {:induction false} HashedWeight(bag: Bag, hs: Hashes, keys: set<string>, bits: nat)
    requires Covered(bag, hs, keys)
    ensures Weight(Hashed(bag, hs, keys, bits)) == Weight(Signed(bag, hs, keys))
    decreases |keys|
  {
    if keys == {} {
      assert Signed(bag, hs, keys) == map[];
    } else {
      var key := PickKey(keys);
      var rest := keys - {key};
      var w := SignOf(hs[key]) * bag[key];
      assert rest + {key} == keys;
      HashedWeight(bag, hs, rest, bits);
      WeightBump(Hashed(bag, hs, rest, bits), DimOf(hs[key], bits), w);
      SignedStep(bag, hs, rest, key);
      WeightInsert(Signed(bag, hs, rest), key, w);
    }
  }

  /** One more key adds its signed count to the signed counts. */
  lemma SignedStep(bag: Bag, hs: Hashes, done: set<string>, key: string)
    requires key in bag && key in hs && key !in done
    ensures Signed(bag, hs, done + {key}) == Signed(bag, hs, done)[key := SignOf(hs[key]) * bag[key]]
    ensures key !in Signed(bag, hs, done)
  {
  }

  // ---------------------------------------------------------------------------
  // The feature vector of a bag

  lemma FeatureVectorAt(bag: Bag, bits: nat, d: nat)
    requires d in FeatureVector(bag, bits)
    ensures exists k :: k in bag && Dim(k, bits) == d
    ensures FeatureVector(bag, bits)[d] == Weight(DimContributions(bag, bits, d))
  {
    var hs := KeyHashes(bag);
    var k := HashedDomain(bag, hs, bag.Keys, bits, d);
    HashedValue(bag, hs, bag.Keys, bits, d);
    ContributionsOfBag(bag, bits, d);
  }

  lemma ContributionsOfBag(bag: Bag, bits: nat, d: nat)
    ensures Contributions(bag, KeyHashes(bag), bag.Keys, bits, d) == DimContributions(bag, bits, d)
  {
  }

  lemma FeatureVectorHas(bag: Bag, bits: nat)
    ensures forall k :: k in bag ==> Dim(k, bits) in FeatureVector(bag, bits)
  {
    var _ := HashedDomain(bag, KeyHashes(bag), bag.Keys, bits, 0);
  }

  lemma FeatureVectorMeaning(bag: Bag, bits: nat)
    ensures forall k :: k in bag ==> Dim(k, bits) in FeatureVector(bag, bits)
    ensures forall d :: d in FeatureVector(bag, bits) ==> d < Pow2(bits) && exists k :: k in bag && Dim(k, bits) == d
    ensures forall d :: d in FeatureVector(bag, bits) ==> FeatureVector(bag, bits)[d] == Weight(DimContributions(bag, bits, d))
  {
    forall d | d in FeatureVector(bag, bits)
      ensures d < Pow2(bits) && exists k :: k in bag && Dim(k, bits) == d
      ensures FeatureVector(bag, bits)[d] == Weight(DimContributions(bag, bits, d))
    {
      FeatureVectorAt(bag, bits, d);
    }
    FeatureVectorHas(bag, bits);
  }

  /** The reverse index has the dimensions of the feature vector and lists,
      for each, exactly the keys hashed to it. */
  lemma ReverseIndexMeaning(bag: Bag, bits: nat)
    ensures ReverseIndex(bag, bits).Keys == FeatureVector(bag, bits).Keys
    ensures forall d, k :: d in ReverseIndex(bag, bits) && k in ReverseIndex(bag, bits)[d] <==> k in bag && Dim(k, bits) == d
  {
    var hs := KeyHashes(bag);
    forall d
      ensures d in ReverseIndex(bag, bits) <==> d in FeatureVector(bag, bits)
      ensures forall k :: d in ReverseIndex(bag, bits) && k in ReverseIndex(bag, bits)[d] <==> k in bag && Dim(k, bits) == d
    {
      BucketAt(bag, hs, bag.Keys, bits, d);
    }
  }

  /** Without a collision a key's dimension holds exactly its signed count. */
  lemma NoCollision(bag: Bag, bits: nat, key: string)
    requires key in bag
    requires forall k :: k in bag && k != key ==> Dim(k, bits) != Dim(key, bits)
    ensures Dim(key, bits) in FeatureVector(bag, bits)
    ensures FeatureVector(bag, bits)[Dim(key, bits)] == Sign(key) * bag[key]
  {
    var w := Sign(key) * bag[key];
    FeatureVectorMeaning(bag, bits);
    SingleContribution(bag, bits, key);
    WeightInsert(map[], key, w);
  }

  lemma SingleContribution(bag: Bag, bits: nat, key: string)
    requires key in bag
    requires forall k :: k in bag && k != key ==> Dim(k, bits) != Dim(key, bits)
    ensures DimContributions(bag, bits, Dim(key, bits)) == map[][key := Sign(key) * bag[key]]
  {
  }

  /** The whole feature vector adds up to the signed counts of the bag. */
  lemma FeatureVectorWeight(bag: Bag, bits: nat)
    ensures Weight(FeatureVector(bag, bits)) == Weight(map k | k in bag :: Sign(k) * bag[k])
  {
    HashedWeight(bag, KeyHashes(bag), bag.Keys, bits);
    SignedOfBag(bag);
  }

  lemma SignedOfBag(bag: Bag)
    ensures Signed(bag, KeyHashes(bag), bag.Keys) == map k | k in bag :: Sign(k) * bag[k]
  {
  }

  /** Two keys that collide with opposite signs and equal counts cancel: their
      dimension holds 0, and its bucket still lists both. */
  lemma CollisionCancels(bag: Bag, bits: nat, k1: string, k2: string)
    requires bag.Keys == {k1, k2} && k1 != k2
    requires Dim(k1, bits) == Dim(k2, bits) && Sign(k1) == -Sign(k2) && bag[k1] == bag[k2]
    ensures FeatureVector(bag, bits) == map[Dim(k1, bits) := 0]
    ensures ReverseIndex(bag, bits) == map[Dim(k1, bits) := {k1, k2}]
  {
    var hs := KeyHashes(bag);
    assert hs[k1] == KeyHash(k1) && hs[k2] == KeyHash(k2);
    HashedCollision(bag, hs, bits, k1, k2);
  }

  /** The same, for any table of hashes. */
  lemma HashedCollision(bag: Bag, hs: Hashes, bits: nat, k1: string, k2: string)
    requires bag.Keys == {k1, k2} && hs.Keys == bag.Keys && k1 != k2
    requires DimOf(hs[k1], bits) == DimOf(hs[k2], bits) && SignOf(hs[k1]) == -SignOf(hs[k2]) && bag[k1] == bag[k2]
    ensures Hashed(bag, hs, bag.Keys, bits) == map[DimOf(hs[k1], bits) := 0]
    ensures Buckets(bag, hs, bag.Keys, bits) == map[DimOf(hs[k1], bits) := {k1, k2}]
  {
    HashedPair(bag, hs, bits, k1, k2);
    BucketsPair(bag, hs, bits, k1, k2);
  }

  /** The vector of two keys on one dimension, with opposite signed counts. */
  lemma HashedPair(bag: Bag, hs: Hashes, bits: nat, k1: string, k2: string)
    requires bag.Keys == {k1, k2} && hs.Keys == bag.Keys && k1 != k2
    requires DimOf(hs[k1], bits) == DimOf(hs[k2], bits) && SignOf(hs[k1]) == -SignOf(hs[k2]) && bag[k1] == bag[k2]
    ensures Hashed(bag, hs, bag.Keys, bits) == map[DimOf(hs[k1], bits) := 0]
  {
    var d := DimOf(hs[k1], bits);
    var w := SignOf(hs[k1]) * bag[k1];
    OppositeProducts(SignOf(hs[k1]), SignOf(hs[k2]), bag[k1]);
    assert bag.Keys - {k2} == {k1} && {k1} - {k1} == {};
    HashedRemove(bag, hs, {k1}, bits, k1);
    assert Hashed(bag, hs, {k1}, bits) == map[d := w];
    HashedRemove(bag, hs, bag.Keys, bits, k2);
    BumpBack(d, w);
  }

  /** The index of two keys on one dimension. */
  lemma BucketsPair(bag: Bag, hs: Hashes, bits: nat, k1: string, k2: string)
    requires bag.Keys == {k1, k2} && hs.Keys == bag.Keys && k1 != k2
    requires DimOf(hs[k1], bits) == DimOf(hs[k2], bits)
    ensures Buckets(bag, hs, bag.Keys, bits) == map[DimOf(hs[k1], bits) := {k1, k2}]
  {
    var d := DimOf(hs[k1], bits);
    assert bag.Keys - {k2} == {k1} && {k1} - {k1} == {};
    BucketsRemove(bag, hs, {k1}, bits, k1);
    assert Buckets(bag, hs, {}, bits) == map[];
    FirstKey(d, k1);
    BucketsRemove(bag, hs, bag.Keys, bits, k2);
    assert Buckets(bag, hs, bag.Keys, bits) == AddKey(map[d := {k1}], d, k2);
    assert {k1} + {k2} == {k1, k2};
  }

  lemma OppositeProducts(s1: int, s2: int, c: int)
    requires s2 == -s1
    ensures s2 * c == -(s1 * c)
  {
  }

  lemma BumpBack(d: nat, w: int)
    ensures Bump(map[d := w], d, -w) == map[d := 0]
  {
  }

  lemma FirstKey(d: nat, key: string)
    ensures AddKey(map[], d, key) == map[d := {key}]
  {
    assert {} + {key} == {key};
  }

  /** The empty bag gives the empty vector and the empty index. */
  lemma {:induction false} EmptyBag(bits: nat)
    ensures FeatureVector(map[], bits) == map[]
    ensures ReverseIndex(map[], bits) == map[]
  {
    var empty: Bag := map[];
    assert empty.Keys == {};
  }
}
