# Siggie feature hashing for labelled graphs, modelled in Dafny

Siggie turns a labelled directed graph, such as a function-call graph, into a
sparse numeric feature vector with the hashing trick. It does this in two steps.

1. A *bag builder*, chosen by a mode number, enumerates structural features of
   the graph as strings and counts them in a dictionary (a *bag*). The features
   are node labels, edge labels, neighborhoods, reachable pairs, shortest
   paths, or connected components.
2. `bag_to_fvec` folds the bag into a vector of 2^bits dimensions. It hashes
   each key with a from-scratch port of MurmurHash3 (x86, 32-bit). The low
   `bits` bits of the hash choose the dimension. Bit 31 chooses a sign of +1 or
   -1. The key's count, times that sign, is added to the dimension. On request
   it also returns, for each dimension, the set of keys that landed there.

The Dafny project models both steps and the mode table. Its modules are:

| module | file | models |
|---|---|---|
| `Bits` | `bits.dfy` | Python's `&`, `\|`, `^`, `<<`, `>>` on unbounded non-negative integers, and the modular arithmetic used to reason about them |
| `Murmur3` | `murmur3.dfy` | the reference MurmurHash3_x86_32 on 32-bit words, and `utils.murmur3` as a method on unbounded integers proved to compute it |
| `Text` | `text.dfy` | `sep.join`, `sorted` on strings, `str.replace` of one character, `"%d"` |
| `Counting` | `counting.dfy` | bags as `map<string, int>`: the `if key not in bag: bag[key] = 0; bag[key] += 1` update, tallying a list of keys, the sum of a bag's values |
| `Graphs` | `graphs.dfy` | the graph (node i has `labels[i]`, edges as pairs), the shortest-path map and the component lists the graph algorithms return, and the facts about them that the builders rely on |
| `Bags` | `bags.dfy` | the bag builders |
| `FeatureHasher` | `feature_hasher.dfy` | `bag_to_fvec` |
| `Modes` | `modes.dfy` | the `modes` table and `mode_name` |
| `Wrappers` | `wrappers.dfy` | `Option` and `Result` |

The builders and the hasher are imperative in the source. Each of them fills
dictionaries inside loops, so each is a Dafny method with a loop. Each method
is proved against a specification function of its inputs:
- a builder against `Tally` of the keys it produces, in the order they are produced;
- `bag_to_fvec` against `FeatureVector` and `ReverseIndex`;
- `murmur3` against the reference `Hash`.

The properties of those functions are lemmas. `mode_name` is pure and is a
function.

`Text.Split` is not a Python call the builders make. It is the inverse of
`Join`, defined so that the key functions can state that a key determines
its labels: `EdgeKey`, `ReachKey`, `PathKey`, `NeighborhoodKey` and
`ComponentKey` each promise that splitting the key at its separator gives
back the labels it was built from, when no label contains the separator.

The graph algorithms (networkx's `all_pairs_shortest_path` and the
`*_components` calls) are not modelled. Their results become parameters of
the builders. The preconditions state only what the builders rely on:
- every node named in a path map or a component is a node of the graph;
- for the component wrappers, what each algorithm guarantees about its
  components (a partition of the nodes; mutual edges, or every edge, inside
  one component; no edge leaving an attracting component).

Dictionary iteration order is arbitrary in the source:
- A path map is a sequence of rows, and a component list is a sequence of
  node lists, each in the order it is yielded.
- `bag_to_fvec` takes the bag's keys in an arbitrary order (`:|`), so its
  postcondition holds for every order.

## Model

| member | source | states |
|---|---|---|
| Murmur3.Murmur3 | utils.py:49-97 | the port, run on unbounded integers that are masked only before right shifts and at the return, returns exactly the reference MurmurHash3_x86_32 of the low bytes of the character codes (`HashOfCodes`); the result is a 32-bit value |
| Murmur3.MixBlocks | utils.py:57-68 | after the block loop the state is, modulo 2^32, the reference state after the first len/4 little-endian blocks |
| Murmur3.MixBlock | utils.py:58-68 | one round of the block loop advances the state, modulo 2^32, by exactly one reference block |
| Murmur3.LoadBlock | utils.py:60-61 | the little-endian load, whose fourth code is not masked with 0xff, agrees modulo 2^32 with the word of the four low bytes |
| Murmur3.WideLoad | utils.py:60-61 | the unmasked top code only adds multiples of 2^32 to the loaded word |
| Murmur3.ScrambleBlock | utils.py:62-64 | `k1 *= c1; ROTL32(k1, 15); k1 *= c2` on unbounded integers equals the reference block scrambling modulo 2^32 |
| Murmur3.MixState | utils.py:66-68 | `h1 ^= k1; ROTL32(h1, 13); h1 * 5 + 0xe6546b64` equals the reference state update modulo 2^32 |
| Murmur3.RotlStep | utils.py:63 | `(x << r) \| ((x & 0xffffffff) >> (32 - r))` is, modulo 2^32, the 32-bit rotation of x mod 2^32 |
| Murmur3.RendAndTail | utils.py:57 | `length & 0xfffffffc` is 4 times the number of whole blocks of the first length mod 2^32 codes, and `length & 0x03` (line 73) is the number of codes left over |
| Murmur3.MixTail | utils.py:71-85 | with no tail the state is unchanged; otherwise it is xored with the scrambled little-endian word of the last len mod 4 low bytes |
| Murmur3.LoadTail | utils.py:73-81 | the fall-through cases 3, 2, 1 load exactly the codes at positions rend to rend + val - 1, low bytes only, little-endian |
| Murmur3.Avalanche | utils.py:90-95 | the inline fmix on unbounded integers equals the reference fmix32 modulo 2^32 |
| Murmur3.XorShrStep | utils.py:91-95 | `x ^ ((x & 0xffffffff) >> s)` is, modulo 2^32, the 32-bit xorshift of x mod 2^32 |
| Murmur3.Mask32 | utils.py:97 | `x & 0xffffffff` is x mod 2^32 |
| Murmur3.HashOfEmpty | utils.py:55-97 | the reference hash of the empty input with seed 0 is 0 |
| Murmur3.HashOfCodesEmpty | utils.py:55-97 | `murmur3("")` is 0 |
| Murmur3.OnlyLowBytesMatter | utils.py:60-81 | inputs of equal length whose codes agree in their low 8 bits hash alike, the unmasked fourth block code included |
| Murmur3.HashOfBytes | utils.py:49-97 | on a byte string shorter than 2^32 and a 32-bit seed, the port's hash is the reference MurmurHash3_x86_32 itself |
| Text.Sort | siggie.py:154 | `sorted` returns an ordered permutation of its input |
| Text.SortedUnique | siggie.py:154 | two ordered permutations of one multiset of strings are equal, so any sort yields the same list |
| Text.Join | siggie.py:116 | `sep.join` of no parts is the empty string, and of one part is that part with no separator |
| Text.SplitJoin | siggie.py:116 | `'-'.join` of a non-empty list is undone by splitting at '-' when no label contains '-' |
| Text.JoinSplits | siggie.py:116 | the same round trip, stated as an implication for every list of parts and any separator |
| Text.SortedJoinSplits | siggie.py:154 | `'-'.join(sorted(ns))` splits back into `sorted(ns)` when no label contains '-' |
| Text.LeReflexive | siggie.py:154 | the string order `sorted` uses (Python's lexicographic order on character codes) is reflexive |
| Text.LeTotal | siggie.py:154 | any two strings are ordered one way or the other |
| Text.LeAntisymmetric | siggie.py:154 | two strings each at most the other are equal |
| Text.LeTransitive | siggie.py:154 | the order is transitive |
| Text.FormatInt | siggie.py:29-33 | `"%d"` writes at least one character, a leading minus sign exactly for a negative number, and decimal digits everywhere else, with no leading zero before or after the sign |
| Text.Replace | siggie.py:27 | `replace("_", " ")` keeps the length and changes exactly the underscores |
| Text.ReplaceRemoves | siggie.py:27 | no underscore is left after the replacement |
| Text.FormatIntRoundTrip | siggie.py:29 | the text `"%d"` writes reads back as the same integer |
| Counting.Add | siggie.py:43-45 | `if key not in bag: bag[key] = 0; bag[key] += w` adds the key and w to its count, and leaves every other key alone |
| Counting.AddWeight | siggie.py:43-45 | the update adds w to the sum of the bag |
| Counting.Tally | siggie.py:40-47 | every key of the tally occurs among the keys, with a count between 1 and the number of keys tallied |
| Counting.TallyCounts | siggie.py:40-47 | tallying a list of keys gives exactly the keys that occur, each with the number of its occurrences |
| Counting.TallyWeight | siggie.py:40-47 | the counts of a tally add up to the number of keys tallied |
| Counting.TallyPermutation | siggie.py:41-45 | tallying the same keys in another order gives the same bag |
| Bags.Increment | siggie.py:43-45 | the inline update is `Add(bag, key, 1)` |
| Bags.BagOfNodes | siggie.py:37-47 | the keys are exactly the node labels, each counted as often as nodes carry it, and the counts add up to the number of nodes |
| Bags.EdgeKey | siggie.py:55 | `"%s-%s" % (label(i), label(j))` splits back at '-' into the two labels when neither contains '-', so the key determines the edge's labels |
| Bags.EdgeTally | siggie.py:53-58 | the tally of the edge keys holds the key of every edge and no other, each counted as often as it occurs, one per edge in all |
| Bags.BagOfEdges | siggie.py:50-60 | the keys are exactly the `label(i)-label(j)` of the edges, each counted once per edge, and the counts add up to the number of edges |
| Bags.BagOfNeighborhoods | siggie.py:63-81 | a source with no reachable node adds nothing; every other source adds 1 to `label(i):` followed by the sorted, '-'-joined labels of its reachable nodes; the keys are exactly those, and the counts add up to the number of such sources |
| Bags.NeighborhoodKey | siggie.py:74-75 | the key is the source's label and ':' followed by a part that, when no reachable node's label contains '-', splits back at '-' into the sorted labels of the reachable nodes |
| Bags.NeighborhoodCount | siggie.py:69-79 | one key per source with a reachable node |
| Bags.NeighborhoodKeyOfPermutation | siggie.py:74-75 | the neighborhood key depends only on the source's label and the multiset of reachable nodes, not on their order |
| Bags.SelfNeighborhood | siggie.py:66-75 | a source that reaches only itself, as with cutoff 0, has the key `label(i):label(i)` |
| Bags.BagOfReachabilities | siggie.py:84-104 | each (i, j) entry of the path map adds 1 to `label(i):label(j)`; the keys are exactly those, and the counts add up to the number of (i, j) entries |
| Bags.ReachKey | siggie.py:96-98 | `"%s:%s" % (label(i), label(j))` splits back at ':' into the two labels when neither contains ':' |
| Bags.AddReachRow | siggie.py:95-102 | the inner loop tallies the keys of one source's targets after those already counted |
| Bags.ReachCount | siggie.py:90-102 | one key per (i, j) entry |
| Bags.BagOfShortestPaths | siggie.py:107-121 | each (i, j) entry adds 1 to the '-'-joined labels along its path; the keys are exactly those, and the counts add up to the number of (i, j) entries |
| Bags.AddPathRow | siggie.py:114-119 | the inner loop tallies the keys of one source's paths after those already counted |
| Bags.PathCount | siggie.py:113-119 | one key per (i, j) entry |
| Bags.PathKey | siggie.py:115-116 | a one-node path's key is that node's label, and a path whose labels contain no '-' splits back into the labels along it |
| Bags.TrivialPathKey | siggie.py:115-116 | the trivial path `[i]` gives the key `label(i)` |
| Bags.BagOfComponents | siggie.py:148-159 | each component adds 1 to the '-'-joined sorted labels of its nodes; the keys are exactly those, and the counts add up to the number of components |
| Bags.ComponentKey | siggie.py:153-154 | a non-empty component whose labels contain no '-' has a key that splits back into its sorted labels |
| Bags.ComponentKeyOfPermutation | siggie.py:153-154 | a component's key does not depend on the order its nodes are listed in |
| Bags.BagOfStronglyConnectedComponents | siggie.py:124-127 | given a partition of the nodes that keeps mutual edges together, the bag is the components' tally; its weight is at most the number of nodes, positive when there is a node, and below the number of nodes when two distinct nodes have edges both ways |
| Bags.BagOfWeaklyConnectedComponents | siggie.py:130-133 | given a partition of the nodes that keeps every edge inside one component, the bag is the components' tally; its weight is at most the number of nodes, positive when there is a node, and below it when some edge joins two distinct nodes |
| Bags.BagOfAttractingComponents | siggie.py:142-145 | given disjoint non-empty components that no edge leaves, the bag is the components' tally; its weight is at most the number of nodes, and below it when an edge leaves a component's node for another node |
| Graphs.LabelsOfPermutation | siggie.py:153 | mapping a permutation of nodes to labels gives a permutation of the labels |
| Graphs.ComponentCount | siggie.py:152-157 | disjoint non-empty components are at most as many as the nodes, and fewer when one of them holds two nodes |
| Graphs.FewerWithMutualEdges | siggie.py:126 | strongly connected components are fewer than the nodes when two distinct nodes have edges both ways |
| Graphs.FewerWithProperEdge | siggie.py:132 | weakly connected components are fewer than the nodes when an edge joins two distinct nodes |
| Graphs.FewerWithEdgeFrom | siggie.py:144 | attracting components are fewer than the nodes when an edge leaves one of their nodes for another node |
| FeatureHasher.BagToFvec | siggie.py:162-184 | the vector is `FeatureVector(bag, bits)` whatever the order the keys are taken in and whether or not the index is asked for; with `fmap` the second result is `ReverseIndex(bag, bits)`, without it `None` |
| FeatureHasher.HashAll | siggie.py:165-184 | the loop over the keys ends with the vector and the index of all keys |
| FeatureHasher.TakeKey | siggie.py:168-182 | one pass of the loop adds one key to the vector and, with `fmap`, to the index |
| FeatureHasher.Codes | siggie.py:169 | the codes `ord` yields for the key, one per character, in order |
| FeatureHasher.KeyHash | siggie.py:169 | `murmur3(key)` with seed 0 is, for any key shorter than 2^32 characters, the reference MurmurHash3_x86_32 of the low bytes of its codes |
| FeatureHasher.CodesHash | siggie.py:169 | for a key shorter than 2^32 characters, the masks of the length and of the seed 0 lose nothing, so the port's hash of the codes is the reference hash of their low bytes |
| FeatureHasher.HashKey | siggie.py:169-171 | `hash & (1 << bits) - 1` and `2 * (hash >> 31) - 1` of the key's MurmurHash3 are the key's dimension and sign |
| FeatureHasher.DimOf | siggie.py:170 | every dimension is below 2^bits |
| FeatureHasher.SignOf | siggie.py:171 | the sign is +1 or -1, and +1 exactly when bit 31 of the hash is set |
| FeatureHasher.DimOfHash | siggie.py:170 | `h & (1 << bits) - 1` keeps the low `bits` bits of h |
| FeatureHasher.SignOfHash | siggie.py:171 | `2 * (h >> 31) - 1` is +1 for a hash with bit 31 set and -1 otherwise |
| FeatureHasher.AddToDimension | siggie.py:173-175 | `if dim not in fvec: fvec[dim] = 0; fvec[dim] += w` bumps one dimension by w |
| FeatureHasher.WeightBump | siggie.py:173-175 | bumping a dimension by w adds w to the sum of the vector |
| FeatureHasher.AddToBucket | siggie.py:178-182 | the index update files the key under its dimension, creating the bucket if needed |
| FeatureHasher.HashedRemove | siggie.py:168-175 | the vector does not depend on the order the keys are visited in: any key may be the last one |
| FeatureHasher.BucketsRemove | siggie.py:176-182 | the index does not depend on the order the keys are visited in |
| FeatureHasher.HashedValue | siggie.py:168-175 | each dimension holds the sum of the signed counts of the keys that land on it |
| FeatureHasher.BucketAt | siggie.py:176-182 | the bucket of a dimension holds exactly the keys that land on it, and the buckets are the dimensions of the vector |
| FeatureHasher.HashedWeight | siggie.py:168-175 | the dimensions add up to the sum of all signed counts: merging collisions loses nothing |
| FeatureHasher.FeatureVectorMeaning | siggie.py:168-175 | the dimensions of the vector are exactly the keys' dimensions; each is below 2^bits and holds the sum of `sign(k) * bag[k]` over the keys k on it |
| FeatureHasher.ReverseIndexMeaning | siggie.py:176-184 | the index has the vector's dimensions, and a key is listed under a dimension exactly when it is in the bag and lands on it |
| FeatureHasher.NoCollision | siggie.py:173-175 | a key that shares its dimension with no other key gives that dimension exactly its signed count |
| FeatureHasher.CollisionCancels | siggie.py:168-182 | two keys on one dimension with opposite signs and equal counts leave 0 there, and its bucket lists both |
| FeatureHasher.FeatureVectorWeight | siggie.py:168-175 | the whole vector adds up to the sum of `sign(k) * bag[k]` over the bag |
| FeatureHasher.EmptyBag | siggie.py:165-184 | the empty bag gives the empty vector and the empty index |
| Modes.ModeOption | siggie.py:28-33 | modes 5, 6 and 7, and only they, have an option: `size`, `depth`, `maxlen` |
| Modes.OptionSuffix | siggie.py:28-33 | the suffix contains no underscore |
| Modes.ModeName | siggie.py:24-34 | the name is given for modes 0 to 7 and an unknown mode fails as the dictionary lookup's `KeyError` does; a name has no underscore |
| Modes.SuffixReadsBack | siggie.py:29-33 | ` (option: value)` reads back as the option and its value |
| Modes.ModeNameParts | siggie.py:27-33 | the name starts with the builder's name, underscores turned into spaces; a mode without an option stops there, and one with an option goes on with ` (option: value)` whose value reads back as the option's |
| Modes.ModeTableShape | siggie.py:13-22 | the table has exactly the modes 0 to 7, and each name starts with `bag_of_` and goes on past it |
| Modes.BuilderNameLength | siggie.py:13-22 | every builder's name has a ninth character, and its eighth and ninth are not underscores |
| Modes.BuilderNamesDiffer | siggie.py:13-22 | two builders' names differ in their eighth or ninth character |
| Modes.ModeNamesDiffer | siggie.py:13-34 | no two modes get the same name, whatever the options |

## Left out

- `utils.load_fcg` (utils.py:22-46) is not modelled. It reads gzip-pickled graphs from a directory and relabels their nodes, which is file I/O and library glue. The model's `Graph` starts where it ends: nodes numbered 0 to n - 1, each with a label string.
- `utils.pbmap` (utils.py:11-19) is not modelled. It is a sequential map over a list that shows a progress bar.
- `bag_of_biconnected_components` (siggie.py:136-139) is not modelled. It is not in the mode table, and networkx defines biconnected components only on undirected graphs. It only passes another component list to `bag_of_components`, which is modelled.
- networkx's `all_pairs_shortest_path` and `*_components` are not reimplemented. Their results are parameters, and their tie-breaks and cutoffs are not checked. A path map is a sequence of rows in iteration order. A component list is a sequence of node lists.
- Bags.BagOfNeighborhoods: does not check that the reachable nodes are those within `size` hops. It holds for any path map whose nodes are in the graph.
- Bags.BagOfReachabilities: does not check that the reachable nodes are those within `depth` hops, for the same reason.
- Bags.BagOfShortestPaths: does not check that the paths are shortest, or start at i and end at j. It holds for any paths whose nodes are in the graph.
- The float accumulators `0.0` and `1.0` of the neighborhood, reachability and path bags are integers in the model. The counts are small exact integers, so floating point changes nothing.
- Character codes are taken as `ord` gives them for a Python 2 byte string: each character of a label is one code. The module folds each code to its low 8 bits, as the source does, and Murmur3.OnlyLowBytesMatter shows nothing else counts. Encodings are not modelled.
- The order in which Python yields dictionary keys and set elements is not modelled. `bag_to_fvec` takes keys in an arbitrary order, and its result is proved the same for every order.
- FeatureHasher.HashAll: takes the table of key hashes as a ghost parameter. That is proof bookkeeping only; the loop itself calls the MurmurHash3 method for each key.
- FeatureHasher.BagToFvec: `bits` is a `nat`. A negative `bits`, for which Python's `1 << bits` raises `ValueError`, is not modelled.
- Murmur3.Murmur3: `seed` is a `nat`. Python accepts a negative seed, which the model does not cover.
- Each `hashes[dim]` set of the source is a `set<string>` in the model. Python's `set` has no order and holds each key once, so nothing is lost.
- `fmap` is a boolean in the model. The source tests any Python value for truth.
- Modes.ModeName: models the `KeyError` of an unknown mode as a `Failure` result rather than an exception. The command-line arguments object is a record of the three options it reads.
- The inline statement groups of `murmur3` and `bag_to_fvec` are separate methods in the model (block scrambling, state update, avalanche, dictionary updates). Under Python's unbounded integers each keeps the source's operations and their order.
- No published MurmurHash3 test vector except that of the empty input is proved. The hash is instead proved equal to the reference algorithm for every input.
