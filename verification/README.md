# Random test-input generators, modelled in Dafny

The system is a stress-testing kit for competitive programming. A C++ driver
seeds one `std::mt19937_64` engine and calls sampler functions from four
header files, then prints what they return. This project models those
samplers:

- the scalar samplers of `gen_numbers`;
- the sequence samplers of `gen_arrays`;
- the string samplers of `gen_strings`;
- the graph and tree samplers of `gen_graphs`.

It proves the structural facts their outputs have whatever the engine
yields: lengths, value bounds, distinctness, order, palindrome symmetry,
tree shape, degrees and acyclicity.

Modules:

- `Common`: shared vocabulary.
  - `Option` stands for a rejection loop that did not finish.
  - `Iota` models `std::iota` from 1.
  - Also defines permutations, distinctness, sortedness and sums, and `Sorted`, the model of `std::sort`.
- `Engine`: the random engine as a class `Rng` whose state every draw advances.
  - Callers rely only on its contracts. `UniformInt` stays in its range. `Shuffle` keeps the multiset. `Discrete` returns a valid index.
  - The bodies are a 64-bit linear congruential step standing in for the Mersenne Twister.
- `SortedSets`: `std::set` held as a strictly ascending sequence. `Insert` handles integers and `InsertEdge` handles pairs in lexicographic order.
- `Numbers`, `Arrays`, `Strings`, `Graphs`: one method per sampler. Each keeps the loops, draws and branches of the C++ function.
  - `Strings.CaseType` (`Lower`, `Upper`, `Mixed`) is the `CaseType` enum of `gen_strings` (cpp/generators/generator_strings.h:8). It is a datatype with no contract of its own, so it has no row in the table below; `Strings.Drawable` states what each case type allows.
- `GraphFacts`: the graph notions the samplers are judged by, with their lemmas.
  - Notions: walks, connectivity, closed trails, trees grown by attachment, endpoint degrees, edges that follow an order.
  - Lemmas: an attachment tree is connected and acyclic in any edge order; a ring gives every node degree 2; edges that follow an order leave no directed cycle.

Every loop of the C++ code whose pass may add nothing to its container is a
rejection loop (`while (s.size() < k)`, `do … while (exclude.count(val))`).
Each such loop takes a `maxDraws` budget and returns `None` when the budget
runs out. A loop that adds one element per pass, like the attachment loop of
`tree_with_diameter`, is modelled without a budget. For the impossible
requests listed under "Left out", the contract proves that the result is
`None`: the C++ loop would never end there.

The model follows the code in four places where the code promises less than
the system's own description of it:

- `partition` and `random_with_sum` are not guaranteed to reach the target
  sum. Each draw `delta` may be 0, so budget can be left over. For example,
  `partition(10, 3, 2, 5)` can return `[2, 2, 2]`.
- `simple_graph` puts the tree edges into the set as they are, but the added
  edges as `(min, max)`. The same unordered edge can therefore appear twice.
- `random_char` with `Upper` returns a character of `[l, r]`, because the
  base cancels. With the default `'a'..'z'`, that is a lower-case letter.
- `random_weighted` only needs `weights` to be no longer than `values`.
  Equal lengths are not required.

## Model

| member | source | states |
|---|---|---|
| Engine.Rng.UniformInt | cpp/generators/generator_numbers.h:10 | a `uniform_int_distribution(lo, hi)` draw lies in [lo, hi] and requires lo <= hi |
| Engine.Rng.Coin | cpp/generators/generator_strings.h:13 | a fair bit, as `uniform_int_distribution<int>(0, 1)` read as a bool |
| Engine.Rng.Discrete | cpp/generators/generator_numbers.h:44-45 | a `discrete_distribution` draw is an index of `weights` (0 when `weights` is empty) |
| Engine.Rng.Shuffle | cpp/generators/generator_arrays.h:28 | `std::shuffle` keeps the length and the multiset of elements |
| Common.Iota | cpp/generators/generator_arrays.h:26-27 | `std::iota` from 1 fills position i with i + 1 |
| Common.PermutationFacts | cpp/generators/generator_arrays.h:25-30 | a reordering of 1..n has length n, no repeats, values in 1..n, and contains each of 1..n |
| Common.Sorted | cpp/generators/generator_arrays.h:19 | `std::sort` returns an ascending sequence with the same multiset |
| Common.SortedInRange | cpp/generators/generator_arrays.h:19 | sorting keeps every bound the entries obey |
| Common.SortedIdentity | cpp/generators/generator_arrays.h:14-19 | sorting an already ascending sequence leaves it unchanged |
| Common.StrictlyAscendingBound | cpp/generators/generator_arrays.h:13 | a set of values from [lo, hi] holds at most hi - lo + 1 of them, so a larger request can never be met |
| Common.TotalUpdate | cpp/generators/generator_arrays.h:73-74 | adding delta to one part raises the total by delta |
| Common.TotalRemove | cpp/generators/generator_arrays.h:77 | taking one part out takes its value out of the total |
| Common.TotalPermuted | cpp/generators/generator_arrays.h:77 | shuffling the parts does not change their total |
| SortedSets.Insert | cpp/generators/generator_arrays.h:13 | `std::set::insert` keeps the set strictly ascending, adds exactly x, and grows by one only if x was absent |
| SortedSets.InsertEdge | cpp/generators/generator_graphs.h:24-28 | inserting a pair keeps lexicographic order, adds exactly that pair, and grows by one only if it was absent |
| SortedSets.EdgesAscendingIsDistinct | cpp/generators/generator_graphs.h:30 | a vector copied from a set of pairs has no repeated pair |
| Numbers.Random | cpp/generators/generator_numbers.h:9-11 | the draw lies in [l, r]; requires l <= r |
| Numbers.RandomRange | cpp/generators/generator_numbers.h:14-18 | `count` values, each in [l, r] |
| Numbers.RandomExclude | cpp/generators/generator_numbers.h:22-28 | a value in [l, r] outside `exclude`; when `exclude` covers [l, r] the loop cannot finish (None) |
| Numbers.RandomRangeExclude | cpp/generators/generator_numbers.h:32-39 | exactly `count` values, each in [l, r] and outside `exclude`; None whenever count > 0 and `exclude` covers [l, r]; always finishes when count <= 0, since no draw is made |
| Numbers.RandomWeighted | cpp/generators/generator_numbers.h:43-46 | returns values[i] for an index i below the number of weights (index 0 when there are none) |
| Arrays.FillSet | cpp/generators/generator_arrays.h:12-14 | the set loop yields `len` strictly ascending values of [l, r], can never finish when len exceeds the size of [l, r], and always finishes when len <= 0 |
| Arrays.Random | cpp/generators/generator_arrays.h:9-21 | `len` values in [l, r]; unique output is strictly ascending (copied from the set); sorted output is ascending; the non-unique branch always finishes, and so does every call with len <= 0 |
| Arrays.Permutation | cpp/generators/generator_arrays.h:25-30 | the result is a permutation of 1..n |
| Arrays.Matrix | cpp/generators/generator_arrays.h:34-40 | `rows` rows, each with every guarantee of `random` for `cols`, `l`, `r` and the row flags; None when there is a row and unique rows would need more values than [l, r] holds; always finishes with no rows, no columns or non-unique rows |
| Arrays.Pairs | cpp/generators/generator_arrays.h:44-52 | `len` pairs; unordered: first in [l1, r1], second in [l2, r2]; ordered: first <= second and the pair is the two draws, swapped or not |
| Arrays.Subset | cpp/generators/generator_arrays.h:56-62 | k distinct values of [l, r], strictly ascending when `sorted`; None when k exceeds the size of [l, r]; always finishes when k <= 0 |
| Arrays.Partition | cpp/generators/generator_arrays.h:66-79 | k parts; each in [min_val, max_val] when that range is non-empty; total between min_val·k and sum when sum >= min_val·k; all parts equal to min_val when sum <= min_val·k |
| Arrays.ArithmeticProgression | cpp/generators/generator_arrays.h:83-87 | v[i] = start + i·step, so consecutive entries differ by `step` |
| Arrays.PowerStep | cpp/generators/generator_arrays.h:93-97 | multiplying start·ratio^i by ratio gives start·ratio^(i+1) |
| Arrays.GeometricProgression | cpp/generators/generator_arrays.h:91-99 | v[0] = start, v[i + 1] = v[i]·ratio, and v[i] = start·ratio^i |
| Arrays.ConstantArray | cpp/generators/generator_arrays.h:103-105 | `len` copies of `value` |
| Arrays.ConstantTotal | cpp/generators/generator_arrays.h:67-68 | `len` copies of `value` add up to value·len, the amount `partition` subtracts from the budget |
| Arrays.BitArray | cpp/generators/generator_arrays.h:109-114 | `len` entries, each 0 or 1 |
| Arrays.Shuffled | cpp/generators/generator_arrays.h:118-121 | the result has the length and multiset of the input |
| Arrays.PositiveStepsIncrease | cpp/generators/generator_arrays.h:125-133 | consecutive differences at least step_min > 0 make a sequence strictly increasing |
| Arrays.PositiveStepsDecrease | cpp/generators/generator_arrays.h:137-145 | consecutive decreases at least step_min > 0 make a sequence strictly decreasing |
| Arrays.StrictlyIncreasing | cpp/generators/generator_arrays.h:125-133 | v[0] = start, each v[i + 1] - v[i] in [step_min, step_max], strictly increasing when step_min > 0 |
| Arrays.StrictlyDecreasing | cpp/generators/generator_arrays.h:137-145 | v[0] = start, each v[i] - v[i + 1] in [step_min, step_max], strictly decreasing when step_min > 0 |
| Arrays.RandomWithSum | cpp/generators/generator_arrays.h:149-162 | the same guarantees as `partition` with k = len |
| Strings.SwapCase | cpp/generators/generator_strings.h:14 | lower case becomes upper case and back (offset 32); other characters are unchanged |
| Strings.SwapCaseInvolution | cpp/generators/generator_strings.h:14 | swapping case twice gives the character back |
| Strings.RandomChar | cpp/generators/generator_strings.h:10-16 | Lower and Upper return a character of [l, r] (the base cancels); Mixed returns one of [l, r] or its case-swapped form |
| Strings.DefaultDrawableIsLetter | cpp/generators/generator_strings.h:43-47 | with the default range 'a'..'z', every character `random_char` can return is a letter |
| Strings.Random | cpp/generators/generator_strings.h:18-23 | a string of length `len`, each character one `random_char` can return |
| Strings.PalindromeIffReversed | cpp/generators/generator_strings.h:25-33 | s[i] = s[len - 1 - i] for all i exactly when s equals its reversal |
| Strings.Palindrome | cpp/generators/generator_strings.h:25-33 | length `len`, s[i] = s[len - 1 - i] for every i, each character one `random_char` can return |
| Strings.RandomAlphanum | cpp/generators/generator_strings.h:36-53 | length `len`; digits only gives '0'..'9'; letters only gives letters; both gives letters or digits |
| Strings.RandomCustom | cpp/generators/generator_strings.h:56-61 | length `len`, every character taken from the non-empty alphabet |
| Strings.RandomStrings | cpp/generators/generator_strings.h:64-68 | `count` strings of length `len`, drawn as by `random`; a negative `len` is accepted when `count` is 0 |
| Strings.Palindromes | cpp/generators/generator_strings.h:71-75 | `count` palindromes of length `len`, each character one `random_char` can return from 'a'..'z'; a negative `len` is accepted when `count` is 0 |
| GraphFacts.RootPathIsWalk | cpp/generators/generator_graphs.h:14-17 | following parent links from any node is a walk to the first node |
| GraphFacts.AttachmentTreeConnected | cpp/generators/generator_graphs.h:14-17 | every node of a tree grown by attachment reaches the first node |
| GraphFacts.EarlierEdgeMissesLaterNode | cpp/generators/generator_graphs.h:14-17 | an edge laid before node i arrived does not touch node i |
| GraphFacts.AttachmentTreeAcyclic | cpp/generators/generator_graphs.h:14-17 | a tree grown by attachment has no closed trail |
| GraphFacts.AttachmentTreeDistinct | cpp/generators/generator_graphs.h:14-17 | no edge of a tree grown by attachment repeats |
| GraphFacts.CycleTransfer | cpp/generators/generator_graphs.h:18 | a closed trail over shuffled edges is a closed trail over the original edges |
| GraphFacts.AttachmentTreeIsTree | cpp/generators/generator_graphs.h:9-20 | an attachment tree over a permutation of 1..n, in any edge order, has n - 1 edges within 1..n, no self-loop, is connected and acyclic |
| GraphFacts.ReachesWider | cpp/generators/generator_graphs.h:23-29 | adding edges keeps every connection |
| GraphFacts.ConnectedViaRoot | cpp/generators/generator_graphs.h:9-20 | if every node reaches one node, all nodes reach each other |
| GraphFacts.EndpointsSplit | cpp/generators/generator_graphs.h:96-98 | the edge ends are the first ends together with the second ends |
| GraphFacts.CycleDegrees | cpp/generators/generator_graphs.h:96-98 | joining each node of a tour to the next, the last to the first, gives each node exactly two edge ends |
| GraphFacts.WalkClimbs | cpp/generators/generator_graphs.h:62-64 | along a walk whose edges point forward in the order, positions strictly grow |
| GraphFacts.RespectsOrderAcyclic | cpp/generators/generator_graphs.h:62-64 | edges that all point forward in one order form no directed cycle |
| Graphs.Tree | cpp/generators/generator_graphs.h:9-20 | n - 1 distinct edges within 1..n, no self-loop, connected and acyclic; the edges are a reordering of the attachment edges |
| Graphs.SimpleGraph | cpp/generators/generator_graphs.h:22-31 | lexicographically sorted distinct pairs, max(n - 1, m) of them, no self-loop, connected; contains every tree edge and every other edge is (min, max); None for one node and m > 0; always finishes when m <= n - 1, since the tree alone is enough |
| Graphs.WeightedGraph | cpp/generators/generator_graphs.h:34-42 | the edges of `simple_graph` in order, each with a weight in [min_w, max_w]; None for one node and m > 0; always finishes when m <= n - 1 |
| Graphs.DirectedGraph | cpp/generators/generator_graphs.h:45-53 | m distinct sorted ordered pairs of different nodes of 1..n; None for one node and m > 0; always finishes when m <= 0 |
| Graphs.Dag | cpp/generators/generator_graphs.h:56-67 | m distinct sorted pairs, each (order[u], order[v]) with u < v over a permutation of 1..n; no self-loop and no directed cycle; always finishes when m <= 0 |
| Graphs.Bipartite | cpp/generators/generator_graphs.h:70-78 | m distinct sorted pairs (u, v) with u in 1..n1 and v in n1 + 1..n1 + n2; always finishes when m <= 0 |
| Graphs.Star | cpp/generators/generator_graphs.h:81-88 | exactly the distinct edges (center, i) with i in 1..n and i != center; n - 1 of them, connected, when the center is one of 1..n |
| Graphs.Cycle | cpp/generators/generator_graphs.h:91-100 | n edges (order[i], order[(i + 1) mod n]) over a permutation of 1..n; every node of 1..n has degree 2 and no other node has any |
| Graphs.TriangleClosed | cpp/generators/generator_graphs.h:105-109 | 0 + 1 + … + k = k(k + 1)/2, the number of pairs the nested loops produce |
| Graphs.Complete | cpp/generators/generator_graphs.h:103-111 | exactly the pairs (i, j) with 1 <= i < j <= n, in lexicographic order, n(n - 1)/2 of them |
| Graphs.ChainTree | cpp/generators/generator_graphs.h:149-155 | edge k is (k + 1, k + 2), n - 1 edges in all, and they form a spanning tree |
| Graphs.PathIsTree | cpp/generators/generator_graphs.h:151-153 | the edges (k + 1, k + 2) for k < n - 1 form a spanning tree of 1..n |
| Graphs.Stubs | cpp/generators/generator_graphs.h:116-119 | n·d stubs in which each node of 1..n occurs exactly d times |
| Graphs.PairUp | cpp/generators/generator_graphs.h:121-126 | if no pair of stubs is a self-loop, the edges' ends are exactly the stubs; the result is empty exactly when some pair is a self-loop |
| Graphs.PairedStubsRegular | cpp/generators/generator_graphs.h:116-126 | pairing off stubs that hold each node of 1..n d times, with no self-loop pair, gives n·d/2 edges inside 1..n with every node of degree d |
| Graphs.Regular | cpp/generators/generator_graphs.h:114-127 | empty when n·d is odd or d >= n; otherwise the shuffled stubs hold each node of 1..n d times, the result is empty exactly when some stub pair 2j, 2j + 1 is a self-loop, and otherwise it has n·d/2 edges with no self-loop and every node of 1..n of degree d |
| Graphs.SpineEdges | cpp/generators/generator_graphs.h:136-138 | one edge (path[k], path[k + 1]) per consecutive pair of the spine, max(len - 1, 0) of them |
| Graphs.AttachToSpine | cpp/generators/generator_graphs.h:139-143 | keeps the spine edges and appends edges up to n - 1 in all, the k-th joining a spine node to the fresh node k + 2 |
| Graphs.SpineOrderPermutation | cpp/generators/generator_graphs.h:132-143 | the shuffled spine over 1..diameter + 1 followed by the later nodes in arrival order is a permutation of 1..n |
| Graphs.SpineBuildIsAttachment | cpp/generators/generator_graphs.h:136-143 | the spine edges followed by the attachment edges form an attachment tree over the spine followed by the attached nodes, a permutation of 1..n |
| Graphs.SpineTree | cpp/generators/generator_graphs.h:130-146 | the shuffled edges form a spanning tree containing the spine path and an edge from the spine to every later node |
| Graphs.SpineLengthClamp | cpp/generators/generator_graphs.h:131 | the diameter used is the requested one, clamped to at most n - 1 |
| Graphs.TreeWithDiameter | cpp/generators/generator_graphs.h:130-146 | the diameter is clamped to n - 1; the result is a spanning tree of 1..n that contains the spine path over a permutation of 1..diameter + 1 and attaches every later node to the spine |

## Left out

- Floating point is not modelled.
  - `random_real` and `random_real_exclude` are not modelled.
  - Of `random_weighted`, only the index that comes out is modelled; the `double` weights do not constrain it.
  - Of `bit_array`, only the 0/1 value is modelled; the `prob_one` probability is not.
- Uniformity and every other distribution claim are not modelled, for the Mersenne Twister, `uniform_int_distribution`, `discrete_distribution` and the fairness of `std::shuffle`. Only ranges, indices and reorderings are stated.
- Engine.Rng.constructor: the driver's clock-based seed becomes a parameter. The engine is a linear congruential stand-in, and nothing else relies on its bodies.
- Fixed-width overflow is not modelled: integers are unbounded. This affects `min_val * k`, `n * d`, `start + i * step`, `val *= ratio` and the `T` parameters (taken as integers).
- Non-termination is not modelled. Each rejection loop takes a `maxDraws` budget and returns `None` when it runs out. The infeasible requests are proved to give `None` in these cases:
  - `Arrays.FillSet`, `Arrays.Random` and `Arrays.Subset`: more distinct values than [l, r] holds;
  - `Arrays.Matrix`: unique rows longer than [l, r] holds, with at least one row;
  - `Numbers.RandomExclude` and `Numbers.RandomRangeExclude`: `exclude` covers the range;
  - `Graphs.SimpleGraph`, `Graphs.WeightedGraph` and `Graphs.DirectedGraph`: a single node.
- Graphs.SimpleGraph: asking for more pairs than exist with two or more nodes is not proved to give `None`. The same holds for `Graphs.DirectedGraph`, `Graphs.Dag` and `Graphs.Bipartite`.
- Negative sizes are excluded through `nat` parameters (or a `requires` when the size is not always used). The C++ code then fails in one of these ways:
  - `gen_strings::random` and `palindrome` stop at `assert(len >= 0)`;
  - `random_alphanum` throws from `reserve`;
  - `random_custom` throws from the `std::string(len, ' ')` constructor;
  - the other samplers throw from `std::vector(n)` or `resize`. Counts that are only compared (`while (size < m)`, `for (i = 1; i <= n; …)`) stay integers.
- Characters are limited to the 7-bit range.
  - Case conversion follows the C locale.
  - The strings themselves are not constrained.
  - Arithmetic on signed `char` beyond 127 is not modelled.
- Graphs.TreeWithDiameter: the exact diameter is not stated, because the code does not promise it. Only the spine path, the attachments and the tree shape are stated.
- Acyclicity of `tree` and `tree_with_diameter` is proved for the build order and carried over to the shuffled edges by `GraphFacts.CycleTransfer`.
- The printers in `generator_utils.h` and the driver `generator.cpp` are not part of this model. Neither are the Python harness `stress_testing.py` and the utilities under `src/utils`: they perform I/O, start processes and touch files.
