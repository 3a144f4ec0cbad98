# SimiLie core, modelled in Dafny

SimiLie is a C++/Kokkos library for tensor calculus and discrete exterior calculus
on structured grids. This project models and proves properties of its core:

- **Arithmetic helpers** (`binomial_coefficient`, `factorial`, `permutation_parity`,
  the portable STL algorithms, strides, `domain_contains`, `are_all_equal`, tuple `remove`):
  modules `Binomial`, `Factorial`, `PermutationParity`, `Signs`, `PortableStl`, `Strides`, `Misc`, `Sorting`.
- **Symmetry-aware tensor indices**: each index kind maps a natural multi-index to an
  access id, a linear combination of memory cells and a sign/zero rule, and back
  (unranking): modules `FullIndex`, `SymmetricIndex`, `AntisymmetricIndex`, `DiagonalIndex`,
  `IdentityIndex`, `LorentzianIndex`, `YoungIndex`, with `LinearCombination` for reads
  through a combination of cells.
- **The tensor accessor and products**: `Tensors` (the `Tensor` class with its memory
  buffer, `get`, `mem`, `+=`, `*=`, `tensor_sum`, the natural contraction) and
  `TensorProducts` (compatibility checks, `TensorProdAnyAnyAny` and the Young-tableau
  overloads that uncompress their operands and compress their result).
- **CSR storage**: `Csr` (the `CsrDynamic` class grown by `push_back`, the row slice `get`,
  `csr2dense`, and the dense×CSR and CSR×dense product kernels).
- **Young tableaux**: `YoungTableau` (dual, hooks, hook lengths, irreducible dimension),
  `Permutations` (`prev_permutation` on bit vectors, `next_permutation` on values) and
  `YoungEnumeration` (`index_hamming_weight_code`, `permutations_subset`, the local parity).
- **Discrete exterior calculus**: `Simplices` (reorientation, negation, scaling, equality),
  `Chains` (the `Chain` class, `optimize`, `+`, `-`, `*`, `==`), `Boundaries` (faces of a
  simplex and of a chain), `DoubleBoundaries` (the boundary of a boundary is empty),
  `LocalChains` (the fixed-capacity `LocalChain` and `tangent_basis`), `Cochains`
  (`Cosimplex`, `Cochain`, `integrate`) and `Coboundaries` (`coboundary` of a cochain and of
  a tensor, `deriv`).

Stateful source classes (`CsrDynamic`, `Chain`, `LocalChain`, the tensor's memory) are Dafny
classes whose methods state their whole new state; loops in the source are methods with
invariants, proved against reference functions; pure expressions are functions with lemmas.
Kokkos parallel loops are modelled as sequential loops, and the `double` element type as `int`.

Where the library's documentation and its code disagree, the model follows the code. The
main cases are: `Chain ==` and `LocalChain ==` compare prefixes only (the tests that check
`boundary(boundary(s))` against an empty chain therefore pass vacuously, and the model proves
emptiness directly); `boundary.hpp` calls a `Chain` API (allocation constructor, in-place `+=`
and `*=`) that `chain.hpp` does not declare, so the boundary is modelled by what those calls
mean, in the order they produce; and the defects listed under "## Findings".

## Model

| member | source | states |
|---|---|---|
| Binomial.BinomialCoefficient | include/similie/misc/binomial_coefficient.hpp:13-21 | the out-of-range, edge, first and recursive cases compute exactly the textbook coefficient C(n, k) of Pascal's rule (the division n / k is exact) |
| Binomial.PascalRule | include/similie/misc/binomial_coefficient.hpp:13-21 | C(n, k) = C(n-1, k-1) + C(n-1, k) for every n, k >= 1 |
| Binomial.ChooseAbsorption | include/similie/misc/binomial_coefficient.hpp:20 | k C(n, k) = n C(n-1, k-1): the identity behind the recursive case |
| Binomial.ChooseSymmetric | include/similie/misc/binomial_coefficient.hpp:13-21 | C(n, k) = C(n, n-k) |
| Binomial.ChoosePositive | include/similie/misc/binomial_coefficient.hpp:15 | C(n, k) > 0 exactly when k <= n, the out-of-range case giving 0 |
| Binomial.ChooseRatio | include/similie/misc/binomial_coefficient.hpp:13-21 | k C(n, k) = (n-k+1) C(n, k-1) |
| Factorial.Factorial | src/similie/misc/factorial.hpp:13-16 | k! is never 0 |
| Factorial.FactorialIsProduct | src/similie/misc/factorial.hpp:13-16 | factorial(k) is the product 1 * 2 * ... * k |
| Factorial.ChooseTimesFactorials | src/similie/misc/factorial.hpp:13-16 | C(n, k) k! (n-k)! = n!, linking the factorial with binomial_coefficient |
| Misc.AreAllEqualVariadic | src/misc/are_all_same.hpp:15-19 | the variadic fold is true exactly when every tail value equals head, and true for an empty tail |
| Misc.AreAllEqual | src/misc/are_all_same.hpp:21-25 | the vector form is true exactly when every element equals the first, agrees with the variadic form on head and tail, and is true for an empty vector |
| Misc.DomainContains | include/similie/misc/domain_contains.hpp:20-48 | true exactly when, for every dimension the domain shares with the element, front <= uid <= back |
| Misc.DomainContainsIgnoresOthers | include/similie/misc/domain_contains.hpp:35-48 | a dimension the domain lacks can take any value without changing the answer |
| Misc.Remove | src/misc/tuple_helpers.hpp:19-27 | out_of_range exactly when N is not a position of the tuple |
| Misc.RemoveSplits | src/misc/tuple_helpers.hpp:13-27 | for N in range the result is the elements before N followed by those after it |
| Misc.RemoveInsert | src/misc/tuple_helpers.hpp:13-27 | putting the N-th element back at position N restores the tuple |
| Strides.Stride | include/similie/misc/stride.hpp:15-37 | the fold of stride_factor is the product of the sizes after position k |
| Strides.NextStride | include/similie/misc/stride.hpp:39-56 | the size_t maximum at position 0, otherwise the product of the sizes from position k on |
| Strides.FoldIsProduct | include/similie/misc/stride.hpp:15-37 | the stride_factor fold from any position is the product of the sizes after max_rank, or from that position if it is later |
| Strides.StrideTimesSize | include/similie/misc/stride.hpp:27-56 | row-major layout: stride(k) * size(k) = next_stride(k) for k > 0, and the last stride is 1 |
| Strides.SymmetricStride | include/similie/misc/stride.hpp:58-65 | symmetric_stride is C(n, k) |
| Strides.SymmetricNextStride | include/similie/misc/stride.hpp:67-82 | the size_t maximum at position 0, otherwise C(n, k-1) |
| Strides.SymmetricStrideRatio | include/similie/misc/stride.hpp:58-82 | neighbouring symmetric strides: k C(n, k) = (n-k+1) C(n, k-1) |
| Strides.AntisymmetricStride | include/similie/misc/stride.hpp:84-91 | antisymmetric_stride among N sub-indices is C(n, N-k) |
| Strides.AntisymmetricNextStride | include/similie/misc/stride.hpp:93-108 | the size_t maximum at position 0, otherwise C(n, N-k-1) |
| Strides.AntisymmetricStrideRatio | include/similie/misc/stride.hpp:84-108 | neighbouring antisymmetric strides: m C(n, m) = (n-m+1) C(n, m-1) with m = N-k |
| PortableStl.SwapEntries | include/similie/misc/portable_stl.hpp:109 | the array afterwards is the old one with entries i and j exchanged |
| PortableStl.Find | include/similie/misc/portable_stl.hpp:15-23 | returns the first position in [first, last) holding value, or last when no position does |
| PortableStl.Move | include/similie/misc/portable_stl.hpp:59-66 | returns d_first + (last - first); the destination range holds the old source range and every other destination cell is unchanged |
| PortableStl.BoundedAdvance | include/similie/misc/portable_stl.hpp:68-76 | the iterator moves by AdvanceSteps and the returned budget is n minus those steps |
| PortableStl.AdvanceStepsBounds | include/similie/misc/portable_stl.hpp:68-76 | advancing never passes bound nor uses more than n steps, and budget is left over exactly when n exceeds the distance to bound |
| PortableStl.ShiftLeft | include/similie/misc/portable_stl.hpp:78-91 | a zero shift returns last; a shift of the whole range or more returns first and changes nothing; otherwise [first, p) holds the old [first + n, last), p is first + (last - first - n) and everything outside [first, p) is unchanged |
| PortableStl.Sort | include/similie/misc/portable_stl.hpp:103-113 | [begin, end) ends ascending, the array keeps its multiset of values and nothing outside the range changes |
| PortableStl.BubblePass | include/similie/misc/portable_stl.hpp:107-111 | one outer pass grows the sorted, above-the-rest suffix of the range by one position and keeps the values and the outside |
| PortableStl.CompareAdjacent | include/similie/misc/portable_stl.hpp:108-110 | one comparison keeps the pass invariant one position further, the values and the outside |
| PermutationParity.FirstMinIndexIsFirstMin | include/similie/misc/permutation_parity.hpp:24 | FirstMinIndex names a position of s[lo..] that holds the minimum and precedes every other position holding it |
| PermutationParity.MinElement | include/similie/misc/permutation_parity.hpp:24 | std::min_element returns the first position of the minimum of a[lo..] |
| PermutationParity.AdjacentFind | include/similie/misc/permutation_parity.hpp:30-32 | std::adjacent_find returns the first k with a[k] == a[k + 1], and the end exactly when no neighbours are equal |
| PermutationParity.PermutationParityAsWritten | include/similie/misc/permutation_parity.hpp:18-38 | the code as written returns ParityAsWritten(lst), which on a permutation of 0..N-1 with N >= 2 is the sign of lst |
| PermutationParity.SweepAsWrittenSorts | include/similie/misc/permutation_parity.hpp:22-29 | on a permutation with 0..i-1 in place the as-written loop ends with the identity |
| PermutationParity.SweepAsWrittenCounts | include/similie/misc/permutation_parity.hpp:22-29 | the as-written loop flips the parity exactly when the unsorted part has an odd number of inversions |
| PermutationParity.AsWrittenOnPermutation | include/similie/misc/permutation_parity.hpp:18-38 | for N >= 2 the as-written result on a permutation of 0..N-1 is its sign |
| PermutationParity.AsWrittenSingleton | include/similie/misc/permutation_parity.hpp:33-35 | a one-element list compares lst[0] with itself and gives 0 |
| PermutationParity.AsWrittenMissesRepeat | include/similie/misc/permutation_parity.hpp:22-35 | [2, 1, 0, 1] repeats a value, yet the code as written returns -1 |
| PermutationParity.SweepPermutes | include/similie/misc/permutation_parity.hpp:22-29 | the corrected selection loop keeps the multiset of values |
| PermutationParity.SweepSorts | include/similie/misc/permutation_parity.hpp:22-29 | the corrected selection loop leaves the list ascending |
| PermutationParity.SweepCounts | include/similie/misc/permutation_parity.hpp:22-29 | on distinct values the corrected loop's parity is the sign of the unsorted part |
| PermutationParity.CorrectedParityMeaning | include/similie/misc/permutation_parity.hpp:18-38 | the corrected result is 0 exactly when lst repeats a value and the sign of lst otherwise |
| PermutationParity.PermutationParity | include/similie/misc/permutation_parity.hpp:18-38 | the corrected method returns 0 on a repeated value and the inversion sign of lst on distinct values |
| Signs.Sign | include/similie/misc/permutation_parity.hpp:12-17 | the reference meaning of parity: +1 or -1 by the parity of the inversion count |
| Signs.SwapDistinct | include/similie/misc/permutation_parity.hpp:27 | exchanging two entries of a duplicate-free list keeps it duplicate-free |
| Signs.SwapMultiset | include/similie/misc/permutation_parity.hpp:27 | exchanging two entries keeps the multiset of values |
| Signs.AdjacentSwap | include/similie/misc/permutation_parity.hpp:12-17 | exchanging an ascending adjacent pair into descending order adds exactly one inversion |
| Signs.MoveToFront | include/similie/misc/permutation_parity.hpp:12-17 | moving a value in front of |u| values it differs from changes the inversion count by |u| modulo 2 |
| Signs.RemoveMinimum | include/similie/misc/permutation_parity.hpp:24-27 | the minimum of distinct values at position p accounts for exactly p inversions |
| Signs.SwapFrontWithMinimum | include/similie/misc/permutation_parity.hpp:23-27 | exchanging the front of distinct values with their minimum elsewhere flips the sign, the step the sort loop counts |
| Signs.SignOfMinimumFirst | include/similie/misc/permutation_parity.hpp:23 | a front that is already the minimum does not change the sign |
| Signs.SortedRepeatIsAdjacent | include/similie/misc/permutation_parity.hpp:30-35 | in an ascending list every repeated value has an equal neighbour, which is why the neighbour check after sorting finds duplicates |
| Signs.DistinctMultiset | include/similie/misc/permutation_parity.hpp:30-35 | a rearrangement of distinct values is distinct |
| Sorting.SortIdsMultiset | include/similie/tensor/symmetric_tensor.hpp:58-59 | the sorted copy of the ids holds the same multiset of values |
| Sorting.SortIdsSorted | include/similie/tensor/symmetric_tensor.hpp:58-59 | the sorted copy of the ids is ascending |
| Sorting.SortedUnique | include/similie/tensor/symmetric_tensor.hpp:58-59 | two ascending lists with the same values are equal, so std::sort's result is determined by the values |
| Sorting.SortIdsDependsOnValues | include/similie/tensor/symmetric_tensor.hpp:55-59 | any two rearrangements of the same ids sort to the same list, so every permutation of ids reads the same symmetric memory slot |
| Sorting.SortIdsValues | include/similie/tensor/antisymmetric_tensor.hpp:73-74 | the sorted copy has the input's length and exactly its values |
| Sorting.SortIdsDistinct | include/similie/tensor/antisymmetric_tensor.hpp:73-74 | sorting distinct ids gives distinct ids |
| LinearCombination.Evaluate | include/similie/tensor/tensor_impl.hpp:472-493 | a read through a linear combination is the weighted sum of the memory cells, and 1 for an empty combination |
| LinearCombination.EvaluateSingle | include/similie/tensor/tensor_impl.hpp:479-491 | a one-term combination reads coefficient times its cell |
| LinearCombination.ReadMemId | include/similie/tensor/tensor_impl.hpp:458-470 | a read through one memory id is that cell, and 1 when the id is the size_t maximum |
| FullIndex.MemSize | include/similie/tensor/full_tensor.hpp:51-58 | the memory size, the product of the sub-index sizes, is at least 1 |
| FullIndex.AccessIdRange | include/similie/tensor/full_tensor.hpp:71-83 | the stride-weighted access id of an in-range multi-index is below the memory size |
| FullIndex.UnrankAccessId | include/similie/tensor/full_tensor.hpp:71-113 | decoding the access id of an in-range multi-index gives that multi-index back |
| FullIndex.AccessIdUnrank | include/similie/tensor/full_tensor.hpp:71-113 | every memory id decodes to an in-range multi-index whose access id is that memory id |
| FullIndex.AccessIdToMemId | include/similie/tensor/full_tensor.hpp:85-89 | the memory id of a full index is its access id |
| FullIndex.StrideSumBound | include/similie/tensor/full_tensor.hpp:71-83 | the stride-weighted sum from sub-index k on is below the product of the sizes from k on |
| SymmetricIndex.MemSize | include/similie/tensor/symmetric_tensor.hpp:42-48 | the memory size is the number of ascending r-tuples over n values, C(n + r - 1, r) |
| SymmetricIndex.MemLinCombId | include/similie/tensor/symmetric_tensor.hpp:55-90 | the closed-form binomial expression of mem_lin_comb is the lexicographic rank of the sorted ids among ascending r-tuples, below the memory size |
| SymmetricIndex.MemLinComb | include/similie/tensor/symmetric_tensor.hpp:55-90 | one term with coefficient 1 whose id is a valid memory id |
| SymmetricIndex.AccessId | include/similie/tensor/symmetric_tensor.hpp:92-95 | the access id is a memory id below the memory size |
| SymmetricIndex.AccessIdToMemLinComb | include/similie/tensor/symmetric_tensor.hpp:97-104 | an access id reads its own memory cell with coefficient 1 |
| SymmetricIndex.ProcessAccess | include/similie/tensor/symmetric_tensor.hpp:106-112 | the value read is returned unchanged |
| SymmetricIndex.Telescope | include/similie/tensor/symmetric_tensor.hpp:64-88 | the sum of the per-position binomial terms plus the rank plus 1 telescopes to the count of ascending tuples, which is what makes the closed form a rank |
| SymmetricIndex.AccessIdSymmetric | include/similie/tensor/symmetric_tensor.hpp:55-59 | any two permutations of the same ids have the same access id |
| SymmetricIndex.AccessIdInjective | include/similie/tensor/symmetric_tensor.hpp:55-90 | ids with the same access id are permutations of one another |
| SymmetricIndex.ReadThroughAccess | include/similie/tensor/symmetric_tensor.hpp:92-112 | reading through the access id gives the memory cell at the rank of the sorted ids |
| SymmetricIndex.RankRange | include/similie/tensor/symmetric_tensor.hpp:55-90 | the rank of an ascending tuple is below the count of tuples of its length |
| SymmetricIndex.RankMonotone | include/similie/tensor/symmetric_tensor.hpp:55-90 | ranking preserves the lexicographic order of ascending tuples |
| SymmetricIndex.UnrankValid | include/similie/tensor/symmetric_tensor.hpp:114-141 | unranking a memory id gives an ascending tuple whose rank is that id |
| SymmetricIndex.UnrankRank | include/similie/tensor/symmetric_tensor.hpp:114-141 | unranking the rank of an ascending tuple gives the tuple back |
| SymmetricIndex.UnrankMemLinCombId | include/similie/tensor/symmetric_tensor.hpp:114-141 | mem_lin_comb of the canonical ids of a memory id is that memory id |
| SymmetricIndex.MemIdToCanonicalNaturalIds | include/similie/tensor/symmetric_tensor.hpp:114-141 | the scanning loop returns the unranked ascending tuple, whose mem_lin_comb id is the given memory id |
| SymmetricIndex.ScanPosition | include/similie/tensor/symmetric_tensor.hpp:120-137 | the inner scan of one position writes the first value whose block holds the remaining id and subtracts the ids below that block |
| AntisymmetricIndex.MemSize | include/similie/tensor/antisymmetric_tensor.hpp:50-59 | the memory size is the number of strictly increasing r-tuples over n values, C(n, r) |
| AntisymmetricIndex.AccessSize | include/similie/tensor/antisymmetric_tensor.hpp:61-68 | the access size is C(n, r), plus one reserved zero slot when the rank is at least 2 |
| AntisymmetricIndex.MemLinCombId | include/similie/tensor/antisymmetric_tensor.hpp:70-102 | the closed-form binomial expression is a size_t value |
| AntisymmetricIndex.MemLinCombIdIsRank | include/similie/tensor/antisymmetric_tensor.hpp:70-102 | on distinct ids the closed form is the lexicographic rank of the sorted ids among increasing r-tuples, below the memory size |
| AntisymmetricIndex.Telescope | include/similie/tensor/antisymmetric_tensor.hpp:78-100 | the per-position binomial terms plus the rank plus 1 telescope to C(n - lo, len), which makes the closed form a rank |
| AntisymmetricIndex.MemLinCombIdSymmetric | include/similie/tensor/antisymmetric_tensor.hpp:73-74 | permutations of the same ids get the same memory id |
| AntisymmetricIndex.MemLinCombIdInjective | include/similie/tensor/antisymmetric_tensor.hpp:70-102 | distinct-id tuples with the same memory id are permutations of one another |
| AntisymmetricIndex.RankRange | include/similie/tensor/antisymmetric_tensor.hpp:70-102 | the rank of an increasing tuple is below C(n - lo, len) |
| AntisymmetricIndex.RankMonotone | include/similie/tensor/antisymmetric_tensor.hpp:70-102 | ranking preserves the lexicographic order of increasing tuples |
| AntisymmetricIndex.UnrankValid | include/similie/tensor/antisymmetric_tensor.hpp:175-199 | unranking a memory id gives an increasing tuple whose rank is that id |
| AntisymmetricIndex.UnrankRank | include/similie/tensor/antisymmetric_tensor.hpp:175-199 | unranking the rank of an increasing tuple gives it back |
| AntisymmetricIndex.UnrankMemLinCombId | include/similie/tensor/antisymmetric_tensor.hpp:175-199 | the canonical ids of a memory id are distinct and mem_lin_comb maps them back to that id |
| AntisymmetricIndex.MemIdToCanonicalNaturalIds | include/similie/tensor/antisymmetric_tensor.hpp:175-199 | the scanning loop returns the unranked increasing tuple of the memory id |
| AntisymmetricIndex.ScanPosition | include/similie/tensor/antisymmetric_tensor.hpp:181-195 | the inner scan of one position writes the first value whose block holds the remaining id and subtracts the ids below that block |
| AntisymmetricIndex.PermutationParity | include/similie/tensor/antisymmetric_tensor.hpp:105-113 | the double loop over pairs returns true exactly when the number of inversions is odd |
| AntisymmetricIndex.AccessId | include/similie/tensor/antisymmetric_tensor.hpp:116-132 | the access id is a size_t value (0 for all-equal ids, 1 + memory id for even parity, access_size + memory id for odd) |
| AntisymmetricIndex.AccessIdToMemLinComb | include/similie/tensor/antisymmetric_tensor.hpp:134-153 | rank at most 1 reads the id itself; access id 0 gives the empty combination; any other id reads one memory cell, (a - 1) mod mem_size, with coefficient 1 |
| AntisymmetricIndex.ProcessAccess | include/similie/tensor/antisymmetric_tensor.hpp:155-172 | rank at most 1 passes the value; otherwise access id 0 gives 0, ids below access_size the value and the rest its negation |
| AntisymmetricIndex.ModOfShift | include/similie/tensor/antisymmetric_tensor.hpp:143-145 | the modulo in access_id_to_mem_lin_comb recovers the memory id from both the even and the odd access range |
| AntisymmetricIndex.ReadDistinct | include/similie/tensor/antisymmetric_tensor.hpp:116-172 | reading distinct ids through the accessor gives the sign of the ids times the cell at the rank of the sorted ids |
| AntisymmetricIndex.ReadAllEqual | include/similie/tensor/antisymmetric_tensor.hpp:121-125 | ids that are all equal read 0 |
| AntisymmetricIndex.ReadRepeatAsWritten | include/similie/tensor/antisymmetric_tensor.hpp:121-126 | as written, the ids [0, 0, 1] repeat a value but are not all equal, and read -mem[0] instead of 0 |
| AntisymmetricIndex.AccessIdCorrected | include/similie/tensor/antisymmetric_tensor.hpp:121-126 | the corrected access id sends every tuple with a repeated value to the zero slot |
| AntisymmetricIndex.ReadCorrectedRepeat | include/similie/tensor/antisymmetric_tensor.hpp:121-126 | with the correction every repeated id reads 0 |
| AntisymmetricIndex.ReadCorrectedDistinct | include/similie/tensor/antisymmetric_tensor.hpp:116-172 | with the correction distinct ids still read sign times the ranked cell, as the code as written does |
| AntisymmetricIndex.SingleIdInRange | include/similie/tensor/antisymmetric_tensor.hpp:118-119 | for rank at most 1 the memory id is in range |
| AntisymmetricIndex.FormOfFourSlots | include/similie/tensor/antisymmetric_tensor.hpp:50-102 | a 2-form over 4 dimensions has 6 slots, (0,1) at 0 and (2,3) at 5 |
| AntisymmetricIndex.FormOfFourTransposed | include/similie/tensor/antisymmetric_tensor.hpp:116-172 | reading (1,0) of a 2-form gives -mem[0] |
| DiagonalIndex.MemSize | include/similie/tensor/diagonal_tensor.hpp:42-45 | one memory cell per diagonal position |
| DiagonalIndex.AccessSize | include/similie/tensor/diagonal_tensor.hpp:47-50 | one access slot more than the memory, the zero slot |
| DiagonalIndex.MemLinComb | include/similie/tensor/diagonal_tensor.hpp:52-62 | a combination exists exactly when all ids are equal, and it reads the cell of that id with coefficient 1 |
| DiagonalIndex.AccessId | include/similie/tensor/diagonal_tensor.hpp:64-74 | the access id is 0 exactly off the diagonal, and otherwise points one past the diagonal cell |
| DiagonalIndex.AccessIdToMemLinComb | include/similie/tensor/diagonal_tensor.hpp:76-84 | access id 0 has no combination; any other reads cell a - 1 |
| DiagonalIndex.ProcessAccess | include/similie/tensor/diagonal_tensor.hpp:86-96 | access id 0 gives 0, any other the value read |
| DiagonalIndex.ReadValues | include/similie/tensor/diagonal_tensor.hpp:52-96 | reading off the diagonal gives 0 and reading on it gives the stored diagonal cell |
| DiagonalIndex.Unrank | include/similie/tensor/diagonal_tensor.hpp:98-102 | the canonical ids of a memory id are r copies of it, all in range |
| DiagonalIndex.UnrankAccessId | include/similie/tensor/diagonal_tensor.hpp:64-102 | the canonical ids of memory id m have access id 1 + m, which reads cell m back |
| DiagonalIndex.DiagonalOfFour | include/similie/tensor/diagonal_tensor.hpp:52-96 | concrete reads of a 4 by 4 diagonal tensor |
| IdentityIndex.MemSize | include/similie/tensor/identity_tensor.hpp:40-43 | nothing is stored |
| IdentityIndex.AccessSize | include/similie/tensor/identity_tensor.hpp:45-48 | two access slots, zero and one |
| IdentityIndex.MemLinComb | include/similie/tensor/identity_tensor.hpp:50-57 | no natural multi-index has a memory combination |
| IdentityIndex.AccessId | include/similie/tensor/identity_tensor.hpp:59-69 | the access id is 1 exactly on the diagonal |
| IdentityIndex.AccessIdToMemLinComb | include/similie/tensor/identity_tensor.hpp:71-79 | the diagonal slot gets the empty combination, the other none |
| IdentityIndex.ProcessAccess | include/similie/tensor/identity_tensor.hpp:81-91 | access id 0 gives 0, the other the value read |
| IdentityIndex.ReadIsKronecker | include/similie/tensor/identity_tensor.hpp:50-91 | reading through the accessor gives the Kronecker delta of the ids |
| IdentityIndex.IdentityOfFour | include/similie/tensor/identity_tensor.hpp:50-91 | concrete reads of the 4 by 4 identity |
| LorentzianIndex.MemSize | include/similie/tensor/lorentzian_sign_tensor.hpp:41-44 | nothing is stored |
| LorentzianIndex.AccessSize | include/similie/tensor/lorentzian_sign_tensor.hpp:46-49 | three access slots: zero, minus and plus |
| LorentzianIndex.MemId | include/similie/tensor/lorentzian_sign_tensor.hpp:51-55 | mem_id is size_t infinity(), which is not the size_t maximum |
| LorentzianIndex.AccessId | include/similie/tensor/lorentzian_sign_tensor.hpp:57-71 | 0 exactly off the diagonal, 1 exactly on the diagonal below q, 2 otherwise |
| LorentzianIndex.ProcessAccess | include/similie/tensor/lorentzian_sign_tensor.hpp:79-91 | slot 0 gives 0, slot 1 the negated value and slot 2 the value |
| LorentzianIndex.AccessIdToMemIdAsWritten | include/similie/tensor/lorentzian_sign_tensor.hpp:73-76 | as written the memory id is size_t infinity() |
| LorentzianIndex.AccessIdToMemIdAsWrittenReadsOutside | include/similie/tensor/lorentzian_sign_tensor.hpp:73-76 | that id is not the "no memory" marker (the maximum) and lies outside the empty storage, so the accessor would read a cell that does not exist |
| LorentzianIndex.AccessIdToMemId | include/similie/tensor/lorentzian_sign_tensor.hpp:73-76 | the corrected memory id is the size_t maximum, the marker the accessor turns into 1 |
| LorentzianIndex.ReadIsSign | include/similie/tensor/lorentzian_sign_tensor.hpp:57-91 | with the correction a read gives 0 off the diagonal, -1 on its first q positions and +1 on the rest |
| Csr.Empty | include/similie/csr/csr_dynamic.hpp:27-33 | the empty matrix, coalesc_idx = {0}, is well formed with no rows |
| Csr.CsrDynamic.constructor | include/similie/csr/csr_dynamic.hpp:27-33 | a new matrix over the given domain holds the empty CSR data |
| Csr.CsrDynamic.FromArrays | include/similie/csr/csr_dynamic.hpp:35-45 | a matrix built from arrays holds exactly those arrays |
| Csr.PushRow | include/similie/csr/csr_dynamic.hpp:67-86 | appending a dense row keeps the data well formed, adds one row, extends the old arrays and closes the row after as many entries as the row has nonzeros |
| Csr.AppendRow | include/similie/csr/csr_dynamic.hpp:73-84 | a new last row of given coordinates and values keeps the data well formed, adds one row, extends the old arrays and closes the row after as many entries as values |
| Csr.PushRowEntry | include/similie/csr/csr_dynamic.hpp:74-83 | the t-th new entry holds the t-th nonzero of the row at that nonzero's position |
| Csr.PushSkip | include/similie/csr/csr_dynamic.hpp:75 | a zero cell adds no entry |
| Csr.PushStep | include/similie/csr/csr_dynamic.hpp:75-83 | a nonzero cell appends its coordinates and its value |
| Csr.NonzeroPositions | include/similie/csr/csr_dynamic.hpp:74-75 | the positions visited with a nonzero value, each in range and nonzero |
| Csr.CsrDynamic.PushBack | include/similie/csr/csr_dynamic.hpp:67-86 | the matrix afterwards holds PushRow of the old data and the dense row |
| Csr.CsrDynamic.AppendCell | include/similie/csr/csr_dynamic.hpp:76-82 | the last boundary, every coordinate vector and the values grow by exactly the one cell |
| Csr.FromRows | include/similie/csr/csr_dynamic.hpp:67-86 | pushing rows one after another gives well-formed data with one row per pushed row |
| Csr.Slice | include/similie/csr/csr_dynamic.hpp:88-116 | the intended slice of row id: a well-formed one-row matrix whose entries are exactly those of row id |
| Csr.SliceAsWritten | include/similie/csr/csr_dynamic.hpp:88-116 | as written the slice copies coalesc[id + 1] entries starting at coalesc[id], the row's end used as its length |
| Csr.SliceAsWrittenMismatch | include/similie/csr/csr_dynamic.hpp:98-110 | on a concrete 3-row matrix the as-written slice of row 1 copies two entries while its coalesc_idx says one, so it is not well formed; the intended slice holds the one entry |
| Csr.CsrDynamic.Get | include/similie/csr/csr_dynamic.hpp:88-116 | get returns a fresh matrix over the same domain holding the intended slice |
| Csr.Scatter | include/similie/csr/csr_dynamic.hpp:144-168 | the dense tensor csr2dense writes, of the requested size |
| Csr.FillZero | include/similie/csr/csr_dynamic.hpp:152 | parallel_fill leaves every cell 0 |
| Csr.Csr2Dense | include/similie/csr/csr_dynamic.hpp:144-168 | the dense tensor afterwards equals the scatter of the CSR data |
| Csr.WriteRow | include/similie/csr/csr_dynamic.hpp:156-165 | the dense memory afterwards is the old one with each entry of the row range written to its cell of the block |
| Csr.ScatterFromRows | include/similie/csr/csr_dynamic.hpp:144-168 | scattering data built from dense rows gives those rows back, one after another, then zeros |
| Csr.ScatterPushRow | include/similie/csr/csr_dynamic.hpp:144-168 | scattering after pushing a row writes that row into its block and leaves the rest as before |
| Csr.Csr2DenseOfTestTensor | include/similie/csr/csr_dynamic.hpp:144-168 | a concrete 3 by 3 by 3 tensor survives the CSR round trip cell for cell |
| Csr.AddRows | src/csr/csr.hpp:163-179 | the accumulated vector of the vector-CSR product has the tail size |
| Csr.VecCsr | src/csr/csr.hpp:141-181 | the vector-CSR product leaves in prod the sum over rows of dense[i] times row i |
| Csr.VecCsrFromRows | src/csr/csr.hpp:141-181 | on data built from dense rows, the vector-CSR product is the linear combination of those rows weighted by the vector |
| Csr.RowSums | src/csr/csr.hpp:206-224 | the CSR-vector result has the requested size |
| Csr.CsrVec | src/csr/csr.hpp:183-225 | the CSR-vector product leaves in prod each row's sum of value times the dense cell at its coordinates |
| Csr.CsrVecFromRows | src/csr/csr.hpp:183-225 | on data built from dense rows, row i of the CSR-vector product is the dot product of row i with the vector |
| Csr.RowSumWholeRow | src/csr/csr.hpp:209-222 | the entries stored for a dense row sum, against a vector, to that row's dot product with it |
| Csr.AddWholeRow | src/csr/csr.hpp:166-179 | the entries stored for a dense row add a times that row to the accumulator |
| Csr.RowSumsOfTestTensor | src/csr/csr.hpp:183-225 | a concrete 3-row matrix times the all-ones vector gives [3, 12, 30] |
| Csr.AddRowsOfTestTensor | src/csr/csr.hpp:141-181 | the all-ones vector times the same matrix gives its column sums |
| YoungIndex.DigitsOfAccessId | include/similie/tensor/young_tableau_tensor.hpp:83-117 | decoding the stride-weighted access id into coordinates gives the natural ids back |
| YoungIndex.AccessIdOfDigits | include/similie/tensor/young_tableau_tensor.hpp:83-117 | every access id decodes to in-range coordinates whose access id it is |
| YoungIndex.RowOfBrackets | include/similie/tensor/young_tableau_tensor.hpp:67-79 | the row of entry j is the unique row whose coalesc range holds j |
| YoungIndex.Matching | include/similie/tensor/young_tableau_tensor.hpp:67-79 | the combination collected from the first n entries of v has at most n terms |
| YoungIndex.CollectMatching | include/similie/tensor/young_tableau_tensor.hpp:64-80 | the loop over v's entries collects, in order, value and row of every entry whose coordinates equal the target |
| YoungIndex.MemLinComb | include/similie/tensor/young_tableau_tensor.hpp:57-81 | mem_lin_comb of natural ids is the matching combination of those ids over v |
| YoungIndex.AccessIdToMemLinComb | include/similie/tensor/young_tableau_tensor.hpp:92-117 | the combination of an access id is the matching combination of its decoded coordinates |
| YoungIndex.DecodeAccessId | include/similie/tensor/young_tableau_tensor.hpp:83-117 | going through the access id gives the same combination as mem_lin_comb of the natural ids |
| YoungIndex.MatchingInRows | include/similie/tensor/young_tableau_tensor.hpp:67-79 | every memory id of the combination is a row of v, a cell of the compressed storage |
| YoungIndex.SameCell | include/similie/tensor/young_tableau_tensor.hpp:68-72 | an entry's tail position equals the access id exactly when its coordinates equal the ids |
| YoungIndex.SumIsUncompressedCell | include/similie/tensor/young_tableau_tensor.hpp:57-117 | the weighted sum over the matching combination is the cell of the uncompressed tensor at the ids |
| YoungIndex.PartialReadIsSum | include/similie/tensor/young_tableau_tensor.hpp:67-79 | reading the entries one by one gives the weighted sum of the collected combination, whose memory ids all lie in memory |
| YoungIndex.AntisymmetricPair | include/similie/tensor/young_tableau_tensor.hpp:57-81 | a concrete one-row v for the antisymmetric pair of indices, well formed |
| YoungIndex.ReadAsWrittenOnEmptyCell | include/similie/tensor/tensor_impl.hpp:472-495 | as written, a cell with no stored entry (the diagonal of an antisymmetric pair) reads 1 through the accessor although its uncompressed value is 0 |
| YoungIndex.ReadAsWrittenOnStoredCell | include/similie/tensor/tensor_impl.hpp:472-495 | whenever the combination is not empty the as-written read is the intended one |
| YoungIndex.Read | include/similie/tensor/tensor_impl.hpp:472-495 | the intended read equals the cell of the uncompressed tensor |
| YoungIndex.Uncompress | include/similie/tensor/young_tableau_tensor.hpp:152-174 | uncompress leaves the vector-CSR product of the compressed memory with v |
| YoungIndex.Compress | include/similie/tensor/young_tableau_tensor.hpp:127-150 | compress leaves the CSR-vector product of u with the dense tensor |
| YoungIndex.DotCombine | include/similie/tensor/young_tableau_tensor.hpp:127-174 | a dot product with a combination of rows is the weighted sum of the dot products |
| YoungIndex.CompressUncompress | include/similie/tensor/young_tableau_tensor.hpp:127-174 | when the rows of u and v are biorthogonal, compressing the uncompressed memory gives it back |
| YoungTableau.ExtractRowIs | src/young_tableau/young_tableau.hpp:40-60 | ExtractRow gives row i of the tableau, and the empty row past its end |
| YoungTableau.OverrideRowIs | src/young_tableau/young_tableau.hpp:62-128 | OverrideRow replaces row i, and the last row when i is past the end |
| YoungTableau.AddCell | src/young_tableau/young_tableau.hpp:143-157 | adding a cell keeps the number of rows |
| YoungTableau.AddCellIs | src/young_tableau/young_tableau.hpp:130-157 | AddCellToTableau appends the value to row i, or makes the last row the single value when i is past the end |
| YoungTableau.DualWalkColumns | src/young_tableau/young_tableau.hpp:159-227 | the cell-by-cell Dual recursion puts every cell into the accumulator row of its column |
| YoungTableau.DualIsTranspose | src/young_tableau/young_tableau.hpp:159-227 | the dual of a tableau whose first row is the longest is the sequence of its columns |
| YoungTableau.DualDual | src/young_tableau/young_tableau.hpp:159-227 | the dual of a Young-shaped tableau is Young-shaped and dualising twice gives the tableau back |
| YoungTableau.DualRank | src/young_tableau/young_tableau.hpp:159-227 | the dual has as many cells as the tableau |
| YoungTableau.ColumnHeight | src/young_tableau/young_tableau.hpp:159-227 | the height of column c counts exactly the rows longer than c |
| YoungTableau.HooksWalkRows | src/young_tableau/young_tableau.hpp:229-301 | the cell-by-cell Hooks recursion writes each row of hook arms into its own accumulator row |
| YoungTableau.HooksAreArms | src/young_tableau/young_tableau.hpp:229-301 | the hooks of a tableau have its shape and cell (k, m) holds the arm length plus one, the row length minus m |
| YoungTableau.HookLengthsWalkRows | src/young_tableau/young_tableau.hpp:303-392 | the cell-by-cell HookLengths recursion writes each row of summed hooks into its own row |
| YoungTableau.HookLengthsAreSums | src/young_tableau/young_tableau.hpp:303-392 | each hook length is the size_t value of the two partial hooks added, minus one |
| YoungTableau.DualHooksOfDualAreLegs | src/young_tableau/young_tableau.hpp:743-745 | the dual of the hooks of the dual gives at (k, m) the column height minus k, the leg length plus one |
| YoungTableau.HookLengthIsArmPlusLeg | src/young_tableau/young_tableau.hpp:743-745 | the hook length at (k, m) is arm plus leg plus one |
| YoungTableau.HookLengthsNonzero | src/young_tableau/young_tableau.hpp:743-745 | every hook length of a Young shape is positive, so the divisions in IrrepDim are defined |
| YoungTableau.IrrepDimWalkProducts | src/young_tableau/young_tableau.hpp:395-446 | the IrrepDim recursion multiplies the running product by every content d + j - i and divides it by every hook length |
| YoungTableau.IrrepDimIsHookContent | src/young_tableau/young_tableau.hpp:395-446 | irrep_dim is the hook-content formula: the product of d + j - i over the cells divided by the product of the hook lengths |
| YoungTableau.IrrepDimOfRowOfTwo | src/young_tableau/young_tableau.hpp:747 | the symmetric 2-tensors of dimension 4 span 10 dimensions |
| YoungTableau.IrrepDimOfColumnOfTwo | src/young_tableau/young_tableau.hpp:747 | the antisymmetric 2-tensors of dimension 4 span 6 dimensions |
| YoungTableau.IrrepDimOfRowOfThree | src/young_tableau/young_tableau.hpp:747 | the symmetric 3-tensors of dimension 3 span 10 dimensions |
| YoungTableau.IrrepDimOfHookOneTwoThree | src/young_tableau/young_tableau.hpp:747 | the hook shape [[1, 2], [3]] in dimension 3 has dimension 8 |
| YoungTableau.IrrepDimOfHookOneThreeTwo | src/young_tableau/young_tableau.hpp:747 | the hook shape [[1, 3], [2]] in dimension 3 has dimension 8 |
| YoungTableau.IrrepDimOfSquareInThree | src/young_tableau/young_tableau.hpp:747 | the square shape in dimension 3 has dimension 6 |
| YoungTableau.IrrepDimOfSquareInFour | src/young_tableau/young_tableau.hpp:747 | the square shape in dimension 4 has dimension 20 |
| YoungTableau.HookLengthsOfSquare | src/young_tableau/young_tableau.hpp:743-745 | the square shape has hook lengths [[3, 2], [2, 1]] |
| Permutations.OnesFirst | src/young_tableau/young_tableau.hpp:545-546 | the two std::fill calls give w leading trues followed by falses |
| Permutations.PrevPermutationKeepsBits | src/young_tableau/young_tableau.hpp:552 | std::prev_permutation on bits keeps the length and the number of ones |
| Permutations.PrevPermutationIsPredecessor | src/young_tableau/young_tableau.hpp:552 | when it succeeds, prev_permutation gives the lexicographically largest arrangement of the same bits below the input |
| Permutations.PrevPermutationWrapsOnSmallest | src/young_tableau/young_tableau.hpp:552 | prev_permutation fails exactly on the smallest arrangement of its bits |
| Permutations.PrevPermutationWrapsToLargest | src/young_tableau/young_tableau.hpp:552 | when it fails it leaves the largest arrangement, ones first |
| Permutations.PrevPermutationWalks | src/young_tableau/young_tableau.hpp:547-552 | prev_permutation steps from the k-th arrangement of weight w in descending order to the next one, and wraps after the last |
| Permutations.ArrangementWeight | src/young_tableau/young_tableau.hpp:547-552 | the k-th arrangement of weight w has w ones |
| Permutations.ArrangementIndex | src/young_tableau/young_tableau.hpp:547-552 | every bit sequence is the arrangement at some index below C(n, w) of its own weight |
| Permutations.ArrangementFirst | src/young_tableau/young_tableau.hpp:545-546 | the walk of weight w starts with ones first |
| Permutations.ArrangementDecreasing | src/young_tableau/young_tableau.hpp:547-552 | arrangements of one weight come in strictly decreasing lexicographic order |
| Permutations.NextPermutationRearranges | src/young_tableau/young_tableau.hpp:932 | std::next_permutation rearranges the values it is given |
| Permutations.NextPermutationWraps | src/young_tableau/young_tableau.hpp:932 | next_permutation fails exactly on a non-increasing sequence and then reverses it |
| Permutations.NextPermutationGrows | src/young_tableau/young_tableau.hpp:932 | when it succeeds next_permutation gives a lexicographically larger sequence |
| Permutations.Orbit | src/young_tableau/young_tableau.hpp:926-932 | the do-while visits a non-empty list of sequences starting at the input, all of its length |
| Permutations.OrbitSteps | src/young_tableau/young_tableau.hpp:926-932 | consecutive entries of the orbit are next_permutation steps and the last one makes it fail |
| Permutations.OrbitRearranges | src/young_tableau/young_tableau.hpp:926-932 | every entry of the orbit rearranges the input |
| Permutations.OrbitIncreasing | src/young_tableau/young_tableau.hpp:926-932 | the orbit is strictly increasing in lexicographic order, so no arrangement appears twice |
| Permutations.OrbitEndsLargest | src/young_tableau/young_tableau.hpp:926-932 | the orbit ends on the non-increasing arrangement |
| YoungEnumeration.IndexHammingWeightCode | src/young_tableau/young_tableau.hpp:540-556 | the loop returns HammingCode(length, index): the index-th bit sequence by increasing weight and, within a weight, prev_permutation order, or None where the source asserts |
| YoungEnumeration.HammingCodeDefined | src/young_tableau/young_tableau.hpp:540-556 | a code exists exactly for the indices below the number of sequences of weight less than length |
| YoungEnumeration.HammingCodeShape | src/young_tableau/young_tableau.hpp:540-556 | a code has the requested length and weight below it |
| YoungEnumeration.HammingCodeIndex | src/young_tableau/young_tableau.hpp:540-556 | every bit sequence that is not all ones is the code of some index |
| YoungEnumeration.HammingCodeOrdered | src/young_tableau/young_tableau.hpp:540-556 | a smaller index gives a smaller weight, or the same weight and a lexicographically larger sequence |
| YoungEnumeration.HammingCodesOfLengthThree | src/young_tableau/young_tableau.hpp:540-556 | the first codes of length 3 listed by value |
| YoungEnumeration.MatchesAre | src/young_tableau/young_tableau.hpp:917-923 | the collected positions are exactly, and in increasing order, those whose value plus one is a subset value |
| YoungEnumeration.PlaceWrites | src/young_tableau/young_tableau.hpp:927-930 | writing the elements back puts element m at the m-th collected position |
| YoungEnumeration.PlaceKeeps | src/young_tableau/young_tableau.hpp:927-930 | writing the elements back leaves every other position alone |
| YoungEnumeration.PlaceOwnValues | src/young_tableau/young_tableau.hpp:927-931 | writing a sequence's own elements back gives the sequence, so the first result is the input |
| YoungEnumeration.SubsetPermutations | src/young_tableau/young_tableau.hpp:910-935 | the result has one entry per next_permutation step of the collected elements |
| YoungEnumeration.PermutationsSubset | src/young_tableau/young_tableau.hpp:910-935 | the collection and do-while loops return SubsetPermutations(t, subset_values) |
| YoungEnumeration.CollectMatches | src/young_tableau/young_tableau.hpp:914-923 | the positions collected are exactly those whose value plus one is a subset value, in increasing order (Matches, characterised by MatchesAre), together with the values they hold |
| YoungEnumeration.PlaceAll | src/young_tableau/young_tableau.hpp:928-931 | the copy of t has each collected position refilled with the current arrangement and every other position unchanged (via Place, PlaceWrites and PlaceKeeps) |
| YoungEnumeration.SubsetEntry | src/young_tableau/young_tableau.hpp:926-932 | the k-th result carries the k-th arrangement of the collected elements at the collected positions |
| YoungEnumeration.SubsetPermutationsStartAtInput | src/young_tableau/young_tableau.hpp:926-932 | the first result is t itself |
| YoungEnumeration.SubsetPermutationsKeepOthers | src/young_tableau/young_tableau.hpp:927-930 | positions outside the subset keep their value in every result |
| YoungEnumeration.SubsetPermutationsRearrange | src/young_tableau/young_tableau.hpp:926-932 | every result rearranges the subset's elements |
| YoungEnumeration.SubsetPermutationsDistinct | src/young_tableau/young_tableau.hpp:926-932 | the results are pairwise different, in increasing order of their subset elements |
| YoungEnumeration.SubsetPermutationsEndLargest | src/young_tableau/young_tableau.hpp:926-932 | the last result holds the subset elements in non-increasing order |
| YoungEnumeration.LocalPermutationParity | src/young_tableau/young_tableau.hpp:856-869 | the loop returns the as-written sweep's parity, which is +1 or -1 and the sign of lst on a permutation |
| YoungEnumeration.LocalParityOfRepeat | src/young_tableau/young_tableau.hpp:856-869 | without a duplicate check [0, 0] gets parity 1 |
| Simplices.ReorientElem | include/similie/exterior/simplex.hpp:41-51 | every coordinate whose vector component is -1 moves down by one, the others stay |
| Simplices.ReorientVect | include/similie/exterior/simplex.hpp:53-60 | every -1 component of the vector becomes 1, the others stay |
| Simplices.ReorientNegativeParity | include/similie/exterior/simplex.hpp:34-67 | the orientation flips exactly when the vector has an odd number of -1 components |
| Simplices.AddNullDimensions | include/similie/exterior/simplex.hpp:89-109 | the full vector has the given value at each tagged dimension and 0 at every other |
| Simplices.NewSimplex | include/similie/exterior/simplex.hpp:112-123 | construction succeeds exactly on a vector of -1, 0 and 1, and then gives the reoriented origin, a 0/1 vector and the flipped orientation |
| Simplices.MakeSimplex | include/similie/exterior/simplex.hpp:89-123 | construction from a partial vector succeeds exactly when every given component is -1, 0 or 1, padding the rest with zeros |
| Simplices.ReorientBinary | include/similie/exterior/simplex.hpp:112-123 | a 0/1 vector is kept as given, with the given orientation |
| Simplices.ReorientedExample | include/similie/exterior/simplex.hpp:112-123 | a concrete simplex with one -1 component is moved and flipped |
| Simplices.Negate | include/similie/exterior/simplex.hpp:174-177 | unary minus keeps origin and vector and flips the orientation |
| Simplices.Scale | include/similie/exterior/simplex.hpp:179-189 | multiplying by 1 or -1 keeps or flips the orientation; any other factor has no result |
| Simplices.Equals | include/similie/exterior/simplex.hpp:191-196 | two simplices compare equal exactly when origin, vector and orientation agree |
| Simplices.PositionsFromAre | include/similie/exterior/simplex.hpp:139-142 | the nonzero positions of a vector, in increasing order |
| Simplices.ValueOf | include/similie/exterior/simplex.hpp:91-104 | for one dimension: the value of the first tag naming it, or 0 when no tag does |
| Simplices.FindNonzero | include/similie/exterior/boundary.hpp:54 | find_if returns the first nonzero position from the start on, or the end; everything skipped is 0 |
| Simplices.Shift | include/similie/exterior/boundary.hpp:87 | discrete_element() + discrete_vector() moves each coordinate by the vector's component |
| Simplices.Opposite | include/similie/exterior/boundary.hpp:88 | -discrete_vector() negates every component |
| Chains.Chain.constructor | include/similie/exterior/chain.hpp:42-46 | a chain holds the given simplices, which the source asserts are free of duplicates |
| Chains.Chain.Empty | include/similie/exterior/chain.hpp:33 | a new empty chain |
| Chains.Chain.Size | include/similie/exterior/chain.hpp:58-66 | the number of simplices |
| Chains.Chain.Check | include/similie/exterior/chain.hpp:68-78 | check returns 0 exactly when no simplex appears twice, and -1 otherwise |
| Chains.Chain.PushBack | include/similie/exterior/chain.hpp:137-140 | the simplex is appended |
| Chains.Chain.Optimize | include/similie/exterior/chain.hpp:80-95 | the chain afterwards is Optimized of the old one, duplicate-free and with no simplex beside its opposite |
| Chains.FirstCancel | include/similie/exterior/chain.hpp:83-87 | the inner loop finds the first later opposite of simplex i, or the end |
| Chains.OptimizedSettles | include/similie/exterior/chain.hpp:80-95 | after optimisation no simplex is followed by its opposite |
| Chains.OptimizedKeepsCoefficients | include/similie/exterior/chain.hpp:80-95 | optimisation keeps the signed coefficient of every simplex and only removes simplices |
| Chains.OptimizedKeepsDistinct | include/similie/exterior/chain.hpp:80-95 | optimisation keeps a duplicate-free chain duplicate-free |
| Chains.OptimizedPairedIsEmpty | include/similie/exterior/chain.hpp:80-95 | a duplicate-free chain made of opposite pairs optimises to nothing |
| Chains.OptimizationExample | include/similie/exterior/chain.hpp:80-95 | a concrete five-simplex chain loses its one opposite pair |
| Chains.FlippedAllCoefficients | include/similie/exterior/chain.hpp:142-149 | flipping every simplex negates every coefficient |
| Chains.NegateChain | include/similie/exterior/chain.hpp:142-149 | unary minus succeeds exactly on a duplicate-free chain and flips every simplex |
| Chains.PlusSimplex | include/similie/exterior/chain.hpp:151-156 | adding a simplex to a duplicate-free chain succeeds exactly when it is new, and the result has one more simplex |
| Chains.PlusChain | include/similie/exterior/chain.hpp:158-163 | adding two duplicate-free chains succeeds exactly when they share nothing, and coefficients add |
| Chains.MinusSimplex | include/similie/exterior/chain.hpp:165-169 | subtracting a simplex adds its opposite, and succeeds exactly when that opposite is new |
| Chains.MinusChain | include/similie/exterior/chain.hpp:165-169 | subtracting a chain appends its flipped simplices, and coefficients subtract |
| Chains.Times | include/similie/exterior/chain.hpp:171-182 | multiplying by 1 keeps the chain, by -1 negates it, and any other factor has no result |
| Chains.EqualsAsWritten | include/similie/exterior/chain.hpp:184-192 | as written == compares only the first |d| simplices of the chain with d |
| Chains.EqualsAsWrittenAcceptsEmpty | include/similie/exterior/chain.hpp:184-192 | as written every chain equals the empty chain |
| Chains.ChainEquals | include/similie/exterior/chain.hpp:184-192 | the intended equality holds exactly when the two chains are equal |
| Chains.Erase | include/similie/exterior/chain.hpp:90-91 | vector::erase of position k shifts every later simplex down by one |
| Chains.RemovePair | include/similie/exterior/chain.hpp:90-91 | erasing k and then i < k removes exactly those two positions and keeps the rest in order |
| Chains.RemovePairKeepsCoefficients | include/similie/exterior/chain.hpp:80-95 | erasing a simplex together with its opposite leaves every coefficient of the formal sum unchanged |
| Chains.FlippedAll | include/similie/exterior/chain.hpp:142-149 | the negated chain flips every simplex, position by position |
| Chains.FlippedAllKeepsDistinct | include/similie/exterior/chain.hpp:142-149 | negating every simplex neither creates nor removes duplicates |
| Boundaries.PositionsAre | include/similie/exterior/boundary.hpp:50-56 | the nonzero positions of a vector in increasing order, the directions find_if visits |
| Boundaries.NextPosition | include/similie/exterior/boundary.hpp:53-55 | each find_if from one past the last direction found lands on the next nonzero position |
| Boundaries.HalfFaces | include/similie/exterior/boundary.hpp:41-63 | a half subchain of k steps has k faces |
| Boundaries.GenerateHalfSubchain | include/similie/exterior/boundary.hpp:41-63 | the loop builds HalfFaces: for the i-th nonzero direction, the simplex with that direction zeroed and orientation negative + i mod 2 |
| Boundaries.HalfFaceAt | include/similie/exterior/boundary.hpp:52-59 | the i-th face of the half subchain is the simplex with the i-th nonzero direction zeroed, built by the reorienting constructor |
| Boundaries.BoundaryOf | include/similie/exterior/boundary.hpp:67-92 | the boundary of a k-simplex has 2k faces |
| Boundaries.Boundary | include/similie/exterior/boundary.hpp:67-92 | the boundary method returns BoundaryOf: the near half with orientation k mod 2, the far half from the opposite corner, and the whole chain flipped unless k is odd and the simplex positive |
| Boundaries.BoundaryIsFaceChain | include/similie/exterior/boundary.hpp:67-92 | the boundary is the closed-form face chain: face (h, i) sits at the origin moved by h along the i-th direction, with that direction removed and orientation negative xor (i + h) even |
| Boundaries.BoundaryFirstHalf | include/similie/exterior/boundary.hpp:73-90 | the first k faces are the near faces of the closed form |
| Boundaries.BoundarySecondHalf | include/similie/exterior/boundary.hpp:81-90 | the last k faces are the far faces of the closed form, reached through the reoriented opposite corner |
| Boundaries.FarCornerFace | include/similie/exterior/boundary.hpp:87-88 | a face built from the far corner with the opposite vector comes back to the near origin shifted by one along its direction, with its orientation flipped by k - 1 |
| Boundaries.FaceChainWellFormed | include/similie/exterior/boundary.hpp:67-92 | every face is a well-formed simplex of dimension k - 1 |
| Boundaries.BoundaryWellFormed | include/similie/exterior/boundary.hpp:67-92 | every face of the boundary is well formed |
| Boundaries.BoundaryBlocksWellFormed | include/similie/exterior/boundary.hpp:94-113 | the concatenated boundaries of a chain's simplices are well formed |
| Boundaries.BoundaryOfChain | include/similie/exterior/boundary.hpp:94-113 | the boundary of a chain is the optimised concatenation of its simplices' boundaries, in order |
| Boundaries.TakeIn | include/similie/exterior/boundary.hpp:108-109 | taking a block in appends its faces to the chain |
| Boundaries.BoundaryOfEdge | include/similie/exterior/boundary.hpp:67-92 | the boundary of a positive edge is its end minus its start |
| Boundaries.BoundaryOfSquare | include/similie/exterior/boundary.hpp:67-92 | the boundary of a positive unit square is its four edges with the orientations of a counter-clockwise loop |
| DoubleBoundaries.DoubleFacePartner | include/similie/exterior/boundary.hpp:67-92 | every face of a face is also reached by removing the two directions in the other order, from the other half |
| DoubleBoundaries.DoubleFaceSwapped | include/similie/exterior/boundary.hpp:67-92 | the two ways of reaching a face of a face give opposite orientations |
| DoubleBoundaries.DoubleFaceInjective | include/similie/exterior/boundary.hpp:67-92 | different choices of halves and directions give different faces of faces, up to that pairing |
| DoubleBoundaries.DoubleFacesPaired | include/similie/exterior/boundary.hpp:94-113 | the faces of the faces of a simplex are duplicate-free and each one's opposite is among them |
| DoubleBoundaries.BoundaryOfBoundaryIsEmpty | include/similie/exterior/boundary.hpp:67-113 | the boundary of the boundary of every well-formed simplex optimises to the empty chain |
| DoubleBoundaries.BoundaryOfBoundary | include/similie/exterior/boundary.hpp:67-113 | boundary applied twice returns an empty chain |
| LocalChains.VectsOf | include/similie/exterior/local_chain.hpp:80-82 | the vectors a chain built from simplices stores are the simplices' vectors, one per simplex, in order |
| LocalChains.Origin | include/similie/exterior/local_chain.hpp:238-242 | the element every simplex of a local chain is built at, before reorientation, has every coordinate 0 |
| LocalChains.LocalChain.FromSimplices | include/similie/exterior/local_chain.hpp:75-90 | the chain holds exactly the simplices' vectors; the slots after them are untouched; the asserts (no repeated vector, one shared origin, no negative simplex) are preconditions |
| LocalChains.LocalChain.FromVects | include/similie/exterior/local_chain.hpp:122-131 | the chain holds exactly the given vectors (at least one, none repeated) and the other slots are untouched |
| LocalChains.LocalChain.WithSize | include/similie/exterior/local_chain.hpp:133-138 | the chain is the first n slots of the allocation, which must hold no repeated vector |
| LocalChains.LocalChain.Check | include/similie/exterior/local_chain.hpp:196-206 | the result is 0 or -1, and 0 exactly when no vector repeats among the first size slots |
| LocalChains.LocalChain.Get | include/similie/exterior/local_chain.hpp:238-248 | entry i is the simplex the reorienting constructor builds at the zero element from slot i (moved origin, flipped -1 entries, orientation from their parity), and nothing when the slot holds an entry outside -1..1 |
| LocalChains.LocalSimplex | include/similie/exterior/simplex.hpp:113-123 | the constructor at the zero element succeeds exactly on -1/0/1 vectors; its origin is min(0, v) and its far corner max(0, v) per direction, its vector is 0/1, its orientation is the parity of the -1 entries, and a 0/1 vector is kept as it is, positive |
| LocalChains.LocalSimplexReorients | include/similie/exterior/simplex.hpp:113-123 | the vector (-1, 0) at the zero element becomes origin (-1, 0), vector (1, 0), negative; the vector (2, 0) is refused |
| LocalChains.LocalChain.Increment | include/similie/exterior/local_chain.hpp:250-255 | the next slot, whatever it holds, joins the chain; nothing is written |
| LocalChains.LocalChain.Advance | include/similie/exterior/local_chain.hpp:257-262 | the next n slots join the chain, in order |
| LocalChains.LocalChain.PushVect | include/similie/exterior/local_chain.hpp:264-270 | the vector is appended; the slots after the new size are unchanged |
| LocalChains.LocalChain.PushSimplex | include/similie/exterior/local_chain.hpp:272-278 | the simplex's vector is appended, its origin and orientation dropped |
| LocalChains.LocalChain.AppendVects | include/similie/exterior/local_chain.hpp:280-288 | the allocation becomes the old entries, then the given vectors, then the untouched rest |
| LocalChains.LocalChain.AppendChain | include/similie/exterior/local_chain.hpp:290-299 | the slots after the chain receive what the element-by-element copy writes, including the aliased case in which the copy reads slots it has already overwritten |
| LocalChains.WrittenCycles | include/similie/exterior/local_chain.hpp:290-299 | on a shared allocation, copy step k writes the entry k places back in the chain's period |
| LocalChains.CopiedAppends | include/similie/exterior/local_chain.hpp:290-299 | appending a chain on another allocation, or a prefix of a shared one, copies exactly its entries |
| LocalChains.CopiedCycles | include/similie/exterior/local_chain.hpp:290-299 | appending a chain to itself on a shared allocation repeats its entries cyclically |
| LocalChains.AppendSeparate | include/similie/exterior/local_chain.hpp:290-299 | after appending a chain on another allocation the first size slots are the old entries followed by the other chain's |
| LocalChains.LocalChain.Plus | include/similie/exterior/local_chain.hpp:301-306 | the result shares the allocation and holds the old entries plus the simplex's vector; this chain's own entries stay as they were |
| LocalChains.LocalChain.PlusChain | include/similie/exterior/local_chain.hpp:308-313 | the result shares the allocation and holds the old entries followed by what the copy writes; this chain's own entries stay as they were |
| LocalChains.LocalChain.ScaleBy | include/similie/exterior/local_chain.hpp:319-329 | multiplication succeeds exactly when the factor is 1, which leaves the chain unchanged; any other factor fails the assertion |
| LocalChains.LocalChain.EqualsAsWritten | include/similie/exterior/local_chain.hpp:339-347 | the result is whether the other chain's entries match the allocation slots at the same places, regardless of this chain's size |
| LocalChains.EqualsAsWrittenIgnoresSize | include/similie/exterior/local_chain.hpp:339-347 | as written, operator== accepts a chain against its own prefix and against a longer chain whose extra entries lie in the allocation |
| LocalChains.LocalChain.Equals | include/similie/exterior/local_chain.hpp:339-347 | the corrected comparison holds exactly when the two chains hold the same vectors in the same order |
| LocalChains.LocalChainScenario | tests/exterior/exterior.cpp:436-468 | the X and Y chain, plus T, plus the Z chain, equals the chain of X, Y, T and Z under both the as-written and the corrected comparison |
| LocalChains.AxesDistinct | tests/exterior/exterior.cpp:436-468 | the four unit simplices of the scenario have distinct vectors, one shared origin and positive orientation |
| LocalChains.Bits | include/similie/exterior/local_chain.hpp:366-374 | a bit vector becomes a 0/1 vector with a 1 exactly at the set bits |
| LocalChains.ToBools | include/similie/exterior/local_chain.hpp:366-374 | the bit vector of a discrete vector marks exactly its nonzero entries |
| LocalChains.Basis | include/similie/exterior/local_chain.hpp:361-378 | the reference tangent basis has C(n, k) entries |
| LocalChains.TangentBasis | include/similie/exterior/local_chain.hpp:361-378 | the prev_permutation loop fills a fresh allocation of exactly C(n, k) slots with the reference basis |
| LocalChains.FillBasis | include/similie/exterior/local_chain.hpp:364-375 | starting from K ones followed by zeros, the do-while loop over prev_permutation writes arrangement i into slot i and stops after the last one, so the buffer equals the reference basis |
| LocalChains.BasisDistinct | include/similie/exterior/local_chain.hpp:361-378 | no tangent direction is listed twice |
| LocalChains.BitsInjective | include/similie/exterior/local_chain.hpp:366-374 | distinct bit vectors give distinct discrete vectors |
| LocalChains.BasisDimension | include/similie/exterior/local_chain.hpp:361-378 | every basis entry is a 0/1 vector over n dimensions spanning exactly k of them |
| LocalChains.BasisIndex | include/similie/exterior/local_chain.hpp:361-378 | every 0/1 vector over n dimensions with k ones is in the basis |
| LocalChains.PositionsCount | include/similie/exterior/local_chain.hpp:361-378 | the number of directions a 0/1 vector spans equals its number of ones |
| Cochains.Sign | include/similie/exterior/cochain.hpp:169-180 | the integration weight of a simplex is +1 or -1, and -1 exactly for a negative simplex |
| Cochains.Pairs | include/similie/exterior/cochain.hpp:295-300 | the iterator visits pairs while both positions are before their ends, so it stops at the end of the shorter range |
| Cochains.FromChain | include/similie/exterior/cochain.hpp:46-50 | the cochain keeps the chain and holds one zero value per simplex |
| Cochains.FromValues | include/similie/exterior/cochain.hpp:52-71 | the cochain keeps the chain and the values, which must be as many as the simplices, so every simplex is paired |
| Cochains.FromTensor | include/similie/exterior/cochain.hpp:73-93 | the values are the tensor's memory slots copied one by one, as many as the simplices |
| Cochains.Size | include/similie/exterior/cochain.hpp:106-114 | the size of a cochain is the size of its chain |
| Cochains.At | include/similie/exterior/cochain.hpp:158-167 | entry i pairs simplex i with value i (include/similie/exterior/cosimplex.hpp:36-42) |
| Cochains.Integrate | include/similie/exterior/cochain.hpp:169-180 | the loop computes the signed sum of the values over the visited pairs |
| Cochains.LocalSimplices | include/similie/exterior/cochain.hpp:226-237 | over a local chain the iterator yields, for each -1/0/1 vector, the simplex the reorienting constructor builds at the zero element |
| Cochains.IntegrateLocal | include/similie/exterior/cochain.hpp:169-180 | over a local chain the loop adds every value with a positive sign (the plain sum over the shorter of chain and values), which is the integral of the yielded simplices when every slot is a 0/1 vector |
| Cochains.LocalIntegralIgnoresReorientation | include/similie/exterior/cochain.hpp:169-180 | the loop's plain sum and the integral of the yielded simplices part on a -1 entry: value 5 on (-1, 0) sums to 5 but integrates to -5 |
| Cochains.LocalIntegralIsSum | include/similie/exterior/cochain.hpp:169-180 | over the simplices yielded for 0/1 vectors the signed sum equals the plain sum |
| Cochains.SignedSumFlipped | include/similie/exterior/cochain.hpp:169-180 | reversing every orientation negates each partial signed sum |
| Cochains.IntegralFlipped | include/similie/exterior/cochain.hpp:169-180 | the integral over the negated chain is the negated integral |
| Cochains.SignedSumAppend | include/similie/exterior/cochain.hpp:169-180 | the signed sum over two chains laid end to end is the sum of the two signed sums |
| Cochains.IntegralAppend | include/similie/exterior/cochain.hpp:169-180 | integration is additive over concatenated cochains |
| Cochains.CochainExample | tests/exterior/exterior.cpp:407-422 | the three-square cochain with values 0, 1 and 2, the last square negative, integrates to -1 |
| Cochains.LocalCochainExample | tests/exterior/exterior.cpp:471-481 | the local X and Y chain with values 1 and 2 integrates to 3 |
| Coboundaries.Or | include/similie/exterior/coboundary.hpp:139-142 | the per-dimension OR is a 0/1 vector with a 1 exactly where either vector is nonzero |
| Coboundaries.SpannedIs | include/similie/exterior/coboundary.hpp:137-143 | a direction is in the accumulated OR exactly when one of the chain's vectors has it |
| Coboundaries.ComputeSimplex | include/similie/exterior/coboundary.hpp:131-149 | as written, the rebuilt simplex sits at the first face's origin, spans the OR of the faces' vectors and is positive |
| Coboundaries.Widen | include/similie/exterior/coboundary.hpp:131-149 | the corrected accumulation marks a direction when either vector has it or the face's origin is displaced along it |
| Coboundaries.ReachIs | include/similie/exterior/coboundary.hpp:131-149 | a direction is in the corrected extent exactly when some face spans it or is displaced along it from the first face |
| Coboundaries.ComputeSimplexCorrected | include/similie/exterior/coboundary.hpp:131-149 | the corrected rebuilt simplex sits at the first face's origin, spans the corrected extent and has the orientation opposite to the first face's |
| Coboundaries.FaceWithin | include/similie/exterior/boundary.hpp:41-63 | a face spans no direction its simplex lacks and is displaced only along a direction of the simplex |
| Coboundaries.FacesInGrid | include/similie/exterior/boundary.hpp:67-92 | the faces of a simplex of dimension K are simplices of dimension K-1 in its grid, and the first sits at its origin with the opposite orientation |
| Coboundaries.SpannedOfBoundary | include/similie/exterior/coboundary.hpp:131-149 | for dimension at least 2 the OR of the faces' vectors is the simplex's own vector |
| Coboundaries.SpannedOfEdge | include/similie/exterior/coboundary.hpp:131-149 | for an edge the OR of the faces' vectors is the zero vector, so the as-written rebuild cannot give the edge back |
| Coboundaries.ReachOfBoundary | include/similie/exterior/coboundary.hpp:131-149 | for every dimension at least 1 the corrected rebuild of a boundary gives back the simplex's vector, origin and orientation |
| Coboundaries.Coboundary | include/similie/exterior/coboundary.hpp:151-166 | on a cochain of 2(K+1) faces of dimension K, the result is the corrected rebuilt simplex paired with the cochain's integral |
| Coboundaries.CoboundaryAsWritten | include/similie/exterior/coboundary.hpp:151-166 | as written, the result is the positive simplex spanning the OR of the faces' vectors, paired with the cochain's integral |
| Coboundaries.OrientationLostAsWritten | include/similie/exterior/coboundary.hpp:131-166 | on the boundary of a negative simplex the as-written rebuild reports the positive simplex while the integral is the one over the negative simplex's boundary |
| Coboundaries.BoundaryOfFlipped | include/similie/exterior/boundary.hpp:67-92 | the boundary of the opposite simplex is the boundary with every face flipped |
| Coboundaries.SquareBoundary | include/similie/exterior/boundary.hpp:67-92 | the boundary of a square is its four faces in the order and orientation boundary() produces |
| Coboundaries.EdgeBoundary | include/similie/exterior/boundary.hpp:67-92 | the boundary of an edge is its negative start followed by its positive end |
| Coboundaries.CoboundaryExample | tests/exterior/exterior.cpp:424-434 | the cochain 5, 8, 3, 2 on the boundary of the XY square at (0, 1, 0, 0) has that square, with value 4, as coboundary |
| Coboundaries.ElementMap | include/similie/misc/domain_contains.hpp:34-50 | the element's coordinates keyed by dimension, with exactly its dimensions as keys |
| Coboundaries.IndexOf | include/similie/exterior/coboundary.hpp:226-230 | the position found is the first holding the vector, or the length when no position holds it |
| Coboundaries.FindVect | include/similie/exterior/coboundary.hpp:226-230 | the linear search over the lower basis returns the first position holding the vector |
| Coboundaries.BasisDirections | include/similie/exterior/local_chain.hpp:361-378 | every tangent basis entry is a 0/1 vector over the grid's dimensions |
| Coboundaries.CoboundaryValueIs | include/similie/exterior/coboundary.hpp:204-253 | the value stored for one upper basis vector is the integral of the face values over the boundary of its simplex at the element |
| Coboundaries.CoboundaryAt | include/similie/exterior/coboundary.hpp:201-254 | the loop over the upper basis fills one element's row with the reference row |
| Coboundaries.RowAt | include/similie/exterior/coboundary.hpp:201-254 | entry i of the reference row is the coboundary value of upper basis vector i |
| Coboundaries.CoboundaryEntry | include/similie/exterior/coboundary.hpp:204-253 | one iteration stores the integral of the face values over the boundary of the upper vector's simplex |
| Coboundaries.ReadFaces | include/similie/exterior/coboundary.hpp:220-231 | a face inside the domain reads the tensor at its origin, any other reads it at the element; the slot is where its vector sits in the lower basis |
| Coboundaries.CoboundaryTensor | include/similie/exterior/coboundary.hpp:168-259 | every element of the output's domain receives its reference row |
| Coboundaries.Deriv | include/similie/exterior/coboundary.hpp:261-275 | deriv writes exactly what the coboundary writes |
| Coboundaries.FaceFound | include/similie/exterior/coboundary.hpp:226-230 | every face of an upper basis simplex is found in the lower basis, at the slot holding its vector |
| Coboundaries.Gradient | include/similie/exterior/coboundary.hpp:168-259 | on 0-forms the coboundary along a direction is the value one step further along it minus the value here, when both points are in the domain |
| Coboundaries.EdgeIntegral | include/similie/exterior/coboundary.hpp:168-259 | the integral over the two faces of an edge is the value at its end minus the value at its start |
| Coboundaries.PlaneBasis | include/similie/exterior/local_chain.hpp:361-378 | over two dimensions the rank-1 tangent basis is X then Y |
| Coboundaries.PlaneAreaBasis | include/similie/exterior/local_chain.hpp:361-378 | over two dimensions the rank-2 tangent basis is XY alone |
| Coboundaries.Curl | include/similie/exterior/coboundary.hpp:168-259 | on 1-forms over the plane the coboundary is the discrete curl of the unit square at the element |
| Coboundaries.UnitSquareFaces | include/similie/exterior/boundary.hpp:67-92 | the four faces of the unit square at an element, with their orientations |
| Coboundaries.SquareIntegral | include/similie/exterior/coboundary.hpp:168-259 | the integral over a square's faces is the circulation of the 1-form around the square |
| Coboundaries.RotationalExample | tests/exterior/exterior.cpp:495-558 | the derivative of the rotational example is 0, -3, 1 and 2 at (0, 0), (1, 0), (0, 1) and (1, 1) |
| Coboundaries.RotationalAt | tests/exterior/exterior.cpp:495-558 | at each element of the 2 x 2 grid the derivative row is the example's curl there |
| Coboundaries.AreaRow | include/similie/exterior/coboundary.hpp:201-254 | over two dimensions a 1-form's coboundary row holds the single XY value |
| Tensors.NaturalRank | include/similie/tensor/tensor_impl.hpp:33-36 | a natural index has rank 1 exactly when it has dimensions, else 0 |
| Tensors.NaturalSize | include/similie/tensor/tensor_impl.hpp:38-55 | the size is the dimension count, and 1 for an index without dimensions |
| Tensors.NaturalCanonicalIds | include/similie/tensor/tensor_impl.hpp:91-110 | a memory id of a natural index gives as many canonical ids as its rank |
| Tensors.NaturalRoundTrip | include/similie/tensor/tensor_impl.hpp:67-110 | canonical ids and access ids of a natural index are inverse both ways |
| Tensors.Rank | include/similie/tensor/tensor_impl.hpp:141-157 | an index never consumes more ids than it has natural dimensions |
| Tensors.MemExtents | include/similie/tensor/tensor_impl.hpp:351-357 | the memory domain has, per dimension, the index's mem_size() or the plain dimension's extent |
| Tensors.AccessExtents | include/similie/tensor/tensor_impl.hpp:359-366 | the access domain has, per dimension, the index's access_size() or the plain dimension's extent |
| Tensors.NaturalDomainsAgree | include/similie/tensor/tensor_impl.hpp:351-366 | over natural indices the memory and access domains coincide |
| Tensors.Coordinates | include/similie/tensor/tensor_impl.hpp:675-683 | every position of row-major memory is the offset of exactly one element of the domain |
| Tensors.OffsetBound | include/similie/tensor/tensor_impl.hpp:675-683 | every element of the domain lies inside the memory |
| Tensors.CoordinatesOfOffset | include/similie/tensor/tensor_impl.hpp:675-683 | distinct elements occupy distinct positions: coordinates invert the offset |
| Tensors.OffsetAppend | include/similie/tensor/tensor_impl.hpp:1165-1198 | laying out head then tail dimensions, the offset is the head's offset times the tail's size plus the tail's offset |
| Tensors.Row | include/similie/tensor/tensor_impl.hpp:413-503 | the row of the last dimension selected by the other coordinates has that dimension's extent |
| Tensors.RowCell | include/similie/tensor/tensor_impl.hpp:413-503 | cell x of a row is the cell of the element extended by x |
| Tensors.MemId | include/similie/tensor/tensor_impl.hpp:509-543 | LambdaMemElem keeps a plain coordinate, converts a stored access id to its memory id, and a combination of exactly one term to that term's id; it fails on the max memory id and on combinations of zero or several terms |
| Tensors.MemElement | include/similie/tensor/tensor_impl.hpp:685-694 | the memory element exists exactly when every coordinate converts, and then holds each coordinate's conversion |
| Tensors.MemElementOfNaturals | include/similie/tensor/tensor_impl.hpp:509-543 | over natural indices the memory element of an access element is itself |
| Tensors.MemElementIs | include/similie/tensor/tensor_impl.hpp:685-694 | when every coordinate converts to the target's, the whole element converts to the target |
| Tensors.ProcessedOfNaturals | include/similie/tensor/tensor_impl.hpp:413-503 | processing through natural indices leaves the value unchanged |
| Tensors.GetOfNaturals | include/similie/tensor/tensor_impl.hpp:716-731 | over natural indices get reads the cell of its element |
| Tensors.GetAfterWrite | include/similie/tensor/tensor_impl.hpp:685-694 | after a write at an element of a natural tensor, that element reads the value and every other element reads as before |
| Tensors.GetOfLastIndex | include/similie/tensor/tensor_impl.hpp:413-503 | with natural indices before the last dimension, get is the last index's decode, read and process on the row the other coordinates select |
| Tensors.HeadsPassThrough | include/similie/tensor/tensor_impl.hpp:413-503 | natural indices before the last dimension pass the last index's processed value through unchanged |
| Tensors.NbDimsBeforeIndexIsSum | include/similie/tensor/tensor_impl.hpp:141-157 | the ids of index k start after the ranks of all the indices before it |
| Tensors.NextIndexStart | include/similie/tensor/tensor_impl.hpp:141-157 | consecutive indices take consecutive slices of the natural ids |
| Tensors.SliceInside | include/similie/tensor/tensor_impl.hpp:141-157 | the slice of every index ends inside the natural ids |
| Tensors.Ranks | include/similie/tensor/tensor_impl.hpp:141-157 | one rank per index, in order |
| Tensors.IdsOf | include/similie/tensor/tensor_impl.hpp:159-207 | index k reads exactly rank() ids from its slice |
| Tensors.AccessElementOfIds | include/similie/tensor/tensor_impl.hpp:185-231 | each index's access id is its own access_id of its slice of the ids |
| Tensors.Uids | include/similie/tensor/tensor_impl.hpp:234-262 | the ids of the named dimensions of a natural element, in order |
| Tensors.AccessElement | include/similie/tensor/tensor_impl.hpp:376-382 | each index gets the access id of its own natural ids; a plain dimension keeps its id |
| Tensors.FlattenLength | include/similie/tensor/tensor_impl.hpp:387-402 | concatenating the canonical id lists gives as many ids as their lengths sum to |
| Tensors.FlattenSlice | include/similie/tensor/tensor_impl.hpp:387-402 | list k sits in the concatenation at the summed lengths of the lists before it |
| Tensors.FlattenStep | include/similie/tensor/tensor_impl.hpp:387-402 | one more list appends its ids to the concatenation |
| Tensors.CanonicalLists | include/similie/tensor/tensor_impl.hpp:392-399 | the canonical ids of every coordinate of a memory element, index by index |
| Tensors.ShapedLengths | include/similie/tensor/tensor_impl.hpp:387-402 | when every index gives rank() canonical ids, the lists' lengths are the ranks |
| Tensors.RankSumBound | include/similie/tensor/tensor_impl.hpp:387-402 | the ranks sum to at most the natural domain's rank, so every canonical id fits |
| Tensors.IdsOfConcat | include/similie/tensor/tensor_impl.hpp:376-402 | index k finds its own canonical ids in its slice of the concatenation |
| Tensors.IdsOfFlatten | include/similie/tensor/tensor_impl.hpp:376-402 | over lists of one id per rank, index k's slice of the concatenation is its own list |
| Tensors.NaturalRoundTrips | include/similie/tensor/tensor_impl.hpp:67-110 | a natural index whose size fits size_t round-trips |
| Tensors.IndexDims | include/similie/tensor/tensor_impl.hpp:265-297 | one tensor dimension per index, in order |
| Tensors.AccessElementOfCanonical | include/similie/tensor/tensor_impl.hpp:376-402 | the access element of the canonical natural element of a memory element converts back to that memory element |
| Tensors.CanonicalElement | include/similie/tensor/tensor_impl.hpp:387-402 | the reference natural element is the canonical ids index by index, then zeros up to the natural domain's rank |
| Tensors.CanonicalNaturalElement | include/similie/tensor/tensor_impl.hpp:387-402 | the copying loop into the zeroed array yields the reference natural element |
| Tensors.CopyNext | include/similie/tensor/tensor_impl.hpp:393-398 | one step copies list k where the first k lists end |
| Tensors.Spliced | include/similie/tensor/tensor_impl.hpp:393-398 | copying a list over the zeros after a prefix leaves the longer prefix followed by zeros |
| Tensors.CopyAt | include/similie/tensor/tensor_impl.hpp:396 | std::copy writes the list from the given position and leaves the rest of the array unchanged |
| Tensors.AntisymmetricKind | include/similie/tensor/antisymmetric_tensor.hpp:42-68 | an antisymmetric index over sub-indices of n dimensions has their names as its naturals, rank equal to their number, and the antisymmetric memory and access sizes |
| Tensors.AntisymmetricGet | include/similie/tensor/tensor_impl.hpp:413-503 | a tensor over one antisymmetric index reads what the index's access id, linear combination and process_access give |
| Tensors.NoInversions | include/similie/tensor/antisymmetric_tensor.hpp:105-113 | a strictly increasing id list has no inversion |
| Tensors.AntisymmetricRoundTrips | include/similie/tensor/tensor_impl.hpp:376-402 | an antisymmetric index whose sizes fit size_t round-trips: canonical ids of a memory id lead back to it |
| Tensors.CanonicalRoundTrip | include/similie/tensor/tensor_impl.hpp:376-402 | through LambdaMemElem, the access id of the canonical ids of an antisymmetric memory id converts back to that memory id |
| Tensors.Added | include/similie/tensor/tensor_impl.hpp:733-743 | summed memories hold, cell by cell, the sum of the two cells |
| Tensors.Scaled | include/similie/tensor/tensor_impl.hpp:746-754 | scaled memory holds every cell multiplied by the scalar |
| Tensors.ColumnSums | include/similie/tensor/tensor_impl.hpp:1113-1128 | cell k of the result is the fold of all the tensors' cells k |
| Tensors.GetOfAdded | include/similie/tensor/tensor_impl.hpp:733-743 | over natural indices a read of summed memories is the sum of the reads |
| Tensors.GetOfScaled | include/similie/tensor/tensor_impl.hpp:746-754 | over natural indices a read of scaled memory is the scaled read |
| Tensors.GetOfColumnSums | include/similie/tensor/tensor_impl.hpp:1113-1128 | over natural indices a read of the summed memories is the sum of the tensors' reads |
| Tensors.Tensor.constructor | include/similie/tensor/tensor_impl.hpp:594-602 | the tensor is a view of the given memory over the given dimensions |
| Tensors.Tensor.Assign | include/similie/tensor/tensor_impl.hpp:685-694 | the memory element's cell receives the value and no other cell changes |
| Tensors.Tensor.AddAssign | include/similie/tensor/tensor_impl.hpp:733-743 | every cell becomes the sum of its old value and the other tensor's old cell, even when the other tensor is this one |
| Tensors.Tensor.ScaleAssign | include/similie/tensor/tensor_impl.hpp:746-754 | every cell is multiplied by the scalar |
| Tensors.MemAfterWrite | include/similie/tensor/tensor_impl.hpp:675-683 | written through mem, a cell reads back the value and no other cell changes |
| Tensors.Contents | include/similie/tensor/tensor_impl.hpp:1113-1128 | the memories of the summed tensors, one per tensor |
| Tensors.ColumnSumSame | include/similie/tensor/tensor_impl.hpp:1113-1128 | tensors agreeing in cell k fold to the same value there |
| Tensors.TensorSum | include/similie/tensor/tensor_impl.hpp:1113-1128 | the corrected loop over the memory domain stores in every cell the fold of the tensors' cells, read before any write |
| Tensors.SumWriteAsWritten | include/similie/tensor/tensor_impl.hpp:1113-1128 | as written, each iteration writes through operator(), which exists exactly when the memory element converts and then writes the converted cell |
| Tensors.TensorSumAsWrittenSkipsCell | include/similie/tensor/tensor_impl.hpp:1113-1128 | over an antisymmetric index of two sub-indices of three values, the loop as written fails its assertion at memory element 0, and memory elements 1 and 2 write cells 0 and 1, so cell 2 is never written |
| Tensors.Without | include/similie/tensor/tensor_impl.hpp:1134-1160 | type_seq_remove keeps exactly the names of the first list not in the second |
| Tensors.WithoutNone | include/similie/tensor/tensor_impl.hpp:1134-1160 | removing names none of which occur changes nothing |
| Tensors.WithoutAll | include/similie/tensor/tensor_impl.hpp:1134-1160 | removing all of a list's names leaves nothing |
| Tensors.WithoutAppend | include/similie/tensor/tensor_impl.hpp:1134-1160 | removal distributes over concatenation |
| Tensors.ProductNames | include/similie/tensor/tensor_impl.hpp:1203-1247 | over distinct head, contracted and tail names, the static check holds and the three removals select head, contracted and tail names |
| Tensors.MatrixProduct | include/similie/tensor/tensor_impl.hpp:1165-1198 | the flat product of an h x c memory and a c x t memory has h x t cells |
| Tensors.NaturalTensorProd | include/similie/tensor/tensor_impl.hpp:1165-1247 | over natural indices every cell of the product receives the flat product's cell |
| Tensors.SplitProduct | include/similie/tensor/tensor_impl.hpp:1165-1198 | the size of concatenated extents is the product of the sizes |
| Tensors.WithinAppend | include/similie/tensor/tensor_impl.hpp:1165-1198 | a head element followed by a tail element lies in the concatenated domain |
| Tensors.MatrixProductCell | include/similie/tensor/tensor_impl.hpp:1165-1198 | the flat product at a head and tail element is the sum over the whole contracted domain of t1(head, c) * t2(c, tail) |
| Tensors.CellOfAppend | include/similie/tensor/tensor_impl.hpp:1165-1198 | the cell of a pair of coordinates over concatenated extents sits at the combined flat offset |
| Tensors.ProductExample | tests/tensor/tensor.cpp:552-653 | contracting the rank-3 tensor holding 0..26 with the rank-2 tensor holding 0..8 gives 15 at (X, X, X) and 381 at (Z, Z, Z) |
| Tensors.DoubleContractionExample | tests/tensor/tensor.cpp:655-756 | the double contraction of two rank-3 tensors holding 0..26 gives 612 at (X, X) and 2952 at (Z, Z) |
| TensorProducts.Uncharacterize | include/similie/tensor/tensor_prod.hpp:63-73 | with characters stripped, each label becomes its natural index, in order |
| TensorProducts.NoCommonIndexIsDisjoint | include/similie/tensor/tensor_prod.hpp:74-88 | the second compatibility rule holds exactly when the operands share no characterised index |
| TensorProducts.ContractedOpposite | include/similie/tensor/tensor_prod.hpp:61-89 | under both rules, an index of tensor1 that the product lacks appears in tensor2 under the same name with the opposite character |
| TensorProducts.PartitionOfNames | include/similie/tensor/tensor_prod.hpp:61-89 | over distinct head, contracted and tail names, the first rule holds and the contracted names are exactly those the product lacks |
| TensorProducts.ContractionAccepted | include/similie/tensor/tensor_prod.hpp:61-89 | T^mu_nu V^nu into P^mu passes both rules |
| TensorProducts.SameCharacterRejected | include/similie/tensor/tensor_prod.hpp:74-88 | T^mu_nu V_nu into P^mu fails the second rule |
| TensorProducts.Names | include/similie/tensor/tensor_prod.hpp:139-140 | the names of natural indices, in order |
| TensorProducts.Extents | include/similie/tensor/tensor_prod.hpp:139-140 | the natural domain of natural indices has size() positions per index |
| TensorProducts.NaturalIndices | include/similie/tensor/tensor_prod.hpp:139-140 | natural indices as tensor indices, one each |
| TensorProducts.BindAt | include/similie/tensor/tensor_prod.hpp:148-156 | over distinct names each name is bound to its own id |
| TensorProducts.UidsOfBind | include/similie/tensor/tensor_prod.hpp:150-156 | selecting the bound names back gives the ids |
| TensorProducts.Read | include/similie/tensor/tensor_prod.hpp:149-156 | tensor.get(tensor.access_element(natural element)) exists exactly when the read stays inside the memory |
| TensorProducts.Elements | include/similie/tensor/tensor_prod.hpp:142-145 | the enumeration visits elements of the domain only |
| TensorProducts.ElementsAt | include/similie/tensor/tensor_prod.hpp:142-145 | element k of the row-major enumeration is the element at offset k |
| TensorProducts.ContractAccess | include/similie/tensor/tensor_prod.hpp:148-152 | the contract accessor's access element has one id per contracted index |
| TensorProducts.Terms | include/similie/tensor/tensor_prod.hpp:144-157 | the reduction has one term per element of the contracted domain |
| TensorProducts.TermsAt | include/similie/tensor/tensor_prod.hpp:144-157 | term k of the reduction is the term at the k-th contracted element |
| TensorProducts.OptionSumPrefix | include/similie/tensor/tensor_prod.hpp:144-157 | when the whole sum exists, so does every term before it |
| TensorProducts.OptionSumStep | include/similie/tensor/tensor_prod.hpp:144-157 | one more term adds its value to the sum |
| TensorProducts.SumReduce | include/similie/tensor/tensor_prod.hpp:144-157 | transform_reduce from 0 with the sum reducer returns the sum of all the terms |
| TensorProducts.MemElements | include/similie/tensor/tensor_prod.hpp:142 | the memory domain is enumerated row-major, each element in range for every index |
| TensorProducts.Cells | include/similie/tensor/tensor_prod.hpp:142-158 | one product value per element of the memory domain |
| TensorProducts.CellsAt | include/similie/tensor/tensor_prod.hpp:142-158 | the value for memory element p is the reduction at its canonical natural element |
| TensorProducts.Values | include/similie/tensor/tensor_prod.hpp:142-158 | the first n product values |
| TensorProducts.ProductMemory | include/similie/tensor/tensor_prod.hpp:142-158 | the product's memory has one slot per memory element |
| TensorProducts.ProductMemoryAt | include/similie/tensor/tensor_prod.hpp:142-158 | slot p holds the product's value at memory element p |
| TensorProducts.ProductSlot | include/similie/tensor/tensor_prod.hpp:143-157 | one iteration computes the canonical natural element and the reduction there |
| TensorProducts.TensorProdAnyAnyAny | include/similie/tensor/tensor_prod.hpp:120-178 | every slot of the product's memory receives the reduction at its canonical natural element |
| TensorProducts.WriteProduct | include/similie/tensor/tensor_prod.hpp:142-158 | every memory slot of the output afterwards holds the product memory at that slot |
| TensorProducts.MemorySlot | include/similie/tensor/tensor_prod.hpp:143-157 | the value computed for one slot is that slot of the product memory |
| TensorProducts.NaturalLayout | include/similie/tensor/tensor_prod.hpp:139-140 | natural indices lay their tensor out over their natural domain |
| TensorProducts.NaturalNamesOf | include/similie/tensor/tensor_prod.hpp:139-140 | the natural domain of natural indices is their names, in order |
| TensorProducts.CanonicalOfNaturals | include/similie/tensor/tensor_prod.hpp:143 | the canonical natural element of a memory element of natural indices is the memory element |
| TensorProducts.UidsOfBindAppend | include/similie/tensor/tensor_prod.hpp:149-156 | selecting either the head or the tail names of a bound element gives that part of the ids |
| TensorProducts.AccessOfNaturals | include/similie/tensor/tensor_prod.hpp:149-156 | the access element of natural indices at bound ids is the ids |
| TensorProducts.ReadNaturals | include/similie/tensor/tensor_prod.hpp:149-156 | reading a tensor over natural indices at bound ids reads the cell of those ids |
| TensorProducts.TermOfNaturals | include/similie/tensor/tensor_prod.hpp:148-156 | over natural indices the term at head, contracted and tail ids is t1's cell at head+contracted times t2's cell at contracted+tail |
| TensorProducts.OptionSumOfSteps | include/similie/tensor/tensor_prod.hpp:144-157 | terms that are the differences of consecutive partial sums add up to the partial sums |
| TensorProducts.TermOfNaturalsAt | include/similie/tensor/tensor_prod.hpp:144-157 | term k of the reduction over natural indices is step k of the contracted sum |
| TensorProducts.ContractedSumSnoc | include/similie/tensor/tensor_impl.hpp:1184-1194 | the contracted sum of k+1 terms adds the term at the k-th contracted element |
| TensorProducts.PartialSums | include/similie/tensor/tensor_impl.hpp:1184-1194 | one partial sum per contracted element, plus the empty one |
| TensorProducts.PartialSumsAt | include/similie/tensor/tensor_impl.hpp:1184-1194 | partial sum n is the contracted sum of the first n terms |
| TensorProducts.TermsOfNaturals | include/similie/tensor/tensor_prod.hpp:144-157 | every term of the reduction over natural indices is a step of the contracted sum |
| TensorProducts.SumOfNaturals | include/similie/tensor/tensor_prod.hpp:144-157 | the whole reduction over natural indices is the contracted sum of the natural product |
| TensorProducts.ProductCellOfNaturals | include/similie/tensor/tensor_prod.hpp:142-158 | the product value at a memory element of natural indices is the reduction at its own ids |
| TensorProducts.SlotOfNaturals | include/similie/tensor/tensor_prod.hpp:142-158 | memory element p of a product over head then tail indices splits into head and tail ids |
| TensorProducts.WithinSplit | include/similie/tensor/tensor_prod.hpp:142-158 | an element of a concatenated domain splits into an element of each part |
| TensorProducts.NaturalCell | include/similie/tensor/tensor_prod.hpp:120-178 | slot p of the general product over natural indices holds slot p of the matrix product |
| TensorProducts.NaturalProductIsMatrixProduct | include/similie/tensor/tensor_prod.hpp:120-178 | over natural indices the general product can be evaluated everywhere and equals the natural overload's matrix product (include/similie/tensor/tensor_impl.hpp:1165-1247) |
| TensorProducts.Uncompressed | include/similie/tensor/tensor_prod.hpp:259-269 | a fresh dense tensor over the Young index's natural sub-indices holds the uncompressed coordinates |
| TensorProducts.TensorProdNatYoungNat | include/similie/tensor/tensor_prod.hpp:230-316 | the product is the natural product of the uncompressed tensor1 and tensor2 |
| TensorProducts.TensorProdNatYoungYoung | include/similie/tensor/tensor_prod.hpp:327-428 | the product is the natural product of both uncompressed operands |
| TensorProducts.TensorProdYoungAnyAny | include/similie/tensor/tensor_prod.hpp:442-565 | the product's irrep coordinates are the compression of the general product evaluated over the dense sub-indices |

## Left out

- Tensors.Tensor: memory cells are `int`, not `double`; floating-point rounding in `+=`, `*=`, `tensor_sum` and the products is not modelled.
- Cochains.Cosimplex, Cochains.Cochain, Cochains.Integrate: values are `int`, not `double`.
- Coboundaries.Field: the tensor read by the tensor coboundary has `int` cells, not `double`.
- YoungTableau.IrrepDim: the source accumulates `prod *= (d + j - i); prod /= hook` in a `double` and truncates to `size_t` (src/young_tableau/young_tableau.hpp:411-416); the model keeps the exact fraction and floors it once, so a rounded product that lands just below an integer is not reproduced.
- Binomial.BinomialCoefficient: computed over unbounded integers; the `size_t` wrap-around of `C(n-1,k-1)*n` for large arguments is not modelled.
- Factorial.Factorial: computed over unbounded integers; `size_t` overflow for k > 20 is not modelled.
- PortableStl.Sort: the comparator is fixed to `<` on integers; the source accepts any `Compare` object.
- SymmetricIndex.MemSize, SymmetricIndex.MemLinCombId: every natural sub-index has the same size n; the source allows different sizes and takes the first one's.
- AntisymmetricIndex.MemSize, AntisymmetricIndex.MemLinCombId: every natural sub-index has the same size n; the source allows different sizes and takes the minimum.
- YoungIndex.MemLinComb: coordinate k of each stored entry is compared with `ids[k]`. The source passes the whole `natural_ids` array to `TensorIndex::access_id`, which takes one `size_t` (include/similie/tensor/tensor_impl.hpp:72), so the text cannot be instantiated as written; the per-component comparison follows the earlier draft at src/tensor/young_tableau_tensor.hpp:43-70.
- Chains.Chain.Optimize, Chains.Chain.constructor: the source's `assert(check() == 0)` (no repeated simplex) is a precondition.
- Boundaries.BoundaryOfChain: the assertion that the chain has no repeated simplex is a precondition.
- LocalChains.LocalChain.FromSimplices, LocalChains.LocalChain.FromVects, LocalChains.LocalChain.WithSize: the constructors' asserts (distinct vectors, a shared origin, positive simplices, size within capacity) are preconditions.
- Cochains.FromValues, Cochains.FromTensor: the assertion that the value count equals the chain size is a precondition.
- Coboundaries.Coboundary, Coboundaries.CoboundaryAsWritten: the assertion `size == 2(K+1)` is a precondition; the second assertion always holds (see Chains.EqualsAsWrittenAcceptsEmpty) and is not checked.
- LocalChain `operator*` (include/similie/exterior/local_chain.hpp:331-337): not modelled. It builds a `Chain` from a `LocalChain`, and no `Chain` constructor takes one, so the template cannot be instantiated; Chains.Times models `Chain` `*`.
- Simplices.Dimension: counts the nonzero entries of the vector instead of reading the template parameter K; they agree when every component given to the constructor is nonzero, and a zero among the given tags (K larger than the number of directions) is not represented.
- Cochains.LocalSimplices: the constructor's assertion that every vector holds only -1, 0 or 1 is a precondition here; the out-of-range case is modelled by LocalChains.LocalSimplex returning nothing.
- TensorProducts.TensorProdNatYoungNat, TensorProducts.TensorProdNatYoungYoung: only the layout in which the uncompressed operands' natural dimensions are head then contracted, and contracted then tail, so that the natural product applies; other orders of the sub-indices are not modelled.
- TensorProducts.TensorProdAnyAnyAny, Tensors.NaturalTensorProd: the result must not share memory with an operand; the aliased case is not modelled.
- Kokkos `parallel_for` and `parallel_reduce`: modelled as sequential loops; the reduction order of floating-point sums is not modelled.
- Relabelization and the `operator[]` slicing of tensors: type-level rewrapping of the same data handle; not modelled.
- `character.hpp` and the other compile-time type helpers: no runtime behaviour.
- Permutations.NextPermutation: proved to rearrange, to grow lexicographically and to wrap exactly on a non-increasing input, but not proved to be the immediate lexicographic successor.
- Csr.VecCsr, Csr.CsrVec: the source loops run to `coalesc.size()` and read `coalesc[i+1]` one past the end on the last pass (src/csr/csr.hpp:164-167, 207-210); the model loops over rows 0..|coalesc|-2 only.
- LorentzianIndex: `mem_id_to_canonical_natural_ids` asserts `mem_id < mem_size()` with a memory size of 0, so it cannot be called; it is not modelled.
- `CsrDynamic::write`, every `operator<<` and the printing helpers: I/O, not modelled.
- The CSR matrices `u` and `v` of a Young tableau are parameters; loading them from the embedded dictionary and writing them to files is not modelled.
- LocalChains.LocalChain: `resize` and the Kokkos View allocation are not modelled; the allocation is a Dafny array fixed at construction.

## Findings

| source | as written | input that shows it | evidently intended | confidence | as-written member | corrected member |
|---|---|---|---|---|---|---|
| include/similie/misc/permutation_parity.hpp:19-35 | one selection-sort sweep; a repeated value is detected only if the sweep happens to compare it | [2, 1, 0, 1] returns -1 | 0 for any repeated value, the inversion sign otherwise | not executed | PermutationParity.AsWrittenMissesRepeat | PermutationParity.CorrectedParityMeaning |
| include/similie/tensor/antisymmetric_tensor.hpp:121-126 | only the all-equal case maps to the zero access id; other repeats fall into a stored slot | n = 3, ids (0, 0, 1), memory [5] reads -5 | every tuple with a repeated id reads 0 | not executed | AntisymmetricIndex.ReadRepeatAsWritten | AntisymmetricIndex.ReadCorrectedRepeat |
| include/similie/tensor/lorentzian_sign_tensor.hpp:73-76 | `numeric_limits<size_t>::infinity()` is 0, not the maximum that the accessor tests for | any diagonal access: memory id 0 is read from an empty memory | the maximum sentinel, so the read yields the sign ±1 | not executed | LorentzianIndex.AccessIdToMemIdAsWrittenReadsOutside | LorentzianIndex.ReadIsSign |
| include/similie/csr/csr_dynamic.hpp:88-116 | `get(id)` copies coordinates and values from `begin` to `begin + end` | coalesc [0,1,2,3], coordinates [[0,1,0]], values [5,6,7], row 1: values [6,7] with boundaries [0,1] | copy `begin` to `end`: values [6] | not executed | Csr.SliceAsWrittenMismatch | Csr.Slice |
| include/similie/tensor/tensor_impl.hpp:1113-1128 | `tensor_sum` walks the memory domain but reads and writes through `operator()`, which treats each memory coordinate as an access id | one antisymmetric index of rank 2 over 3 values: element 0 fails an assertion, elements 1 and 2 write cells 0 and 1, cell 2 is never written | every memory cell receives the sum of the inputs' cells | not executed | Tensors.TensorSumAsWrittenSkipsCell | Tensors.TensorSum |
| include/similie/tensor/tensor_impl.hpp:472-495 | an empty linear combination reads 1 | Young index of an antisymmetric pair, extents [2,2], ids (0,0), memory [5]: reads 1 where the uncompressed tensor holds 0 | an empty combination reads 0 for a Young index | not executed | YoungIndex.ReadAsWrittenOnEmptyCell | YoungIndex.Read |
| include/similie/exterior/chain.hpp:184-192 | `==` tests whether the argument is a prefix; lengths are not compared | any chain compared with the empty chain is equal | equality of the simplex sequences | not executed | Chains.EqualsAsWrittenAcceptsEmpty | Chains.ChainEquals |
| include/similie/exterior/local_chain.hpp:339-347 | `==` compares the other chain's first size() vectors only | [x, y] == [x] for x ≠ y | equal sizes and equal vectors | not executed | LocalChains.EqualsAsWrittenIgnoresSize | LocalChains.LocalChain.Equals |
| include/similie/exterior/coboundary.hpp:134-146 | the simplex is rebuilt as the OR of the face vectors and is always positive | the two faces of an edge OR to the zero vector; a negative square comes back positive | the simplex whose boundary the cochain covers, with its orientation | not executed | Coboundaries.OrientationLostAsWritten | Coboundaries.ReachOfBoundary |
