# Verified model of the distributed algorithms and the wrapper they rest on

The repository wraps MPI for C++ and ships applications that use the wrapper. This project models what is
hardest to get right in it and proves the models correct. One entry of a sequence stands for the local state of
one rank, and a call into MPI is a step with the meaning the MPI 4.0 standard gives it (chapter 6 for the
collectives, section 3.5 for the order of messages). `dafny verify dfyconfig.toml` checks everything.

| module | what it is about |
|---|---|
| `Windows`, `Doubling`, `PrefixDoubling` | prefix doubling: what a round does to the keys of all text positions, and the distributed loop that carries it out |
| `ChainOrder`, `Endings`, `Agreement` | what the rounds sort by for any first keys, for which keys and texts they come to an end, and when the result is the suffix array |
| `Bits`, `Alphabet`, `Packing`, `FirstKeys`, `SuffixSorting` | the reduced alphabet, symbols packed into words, what neighbours send each other, and the whole suffix sorter |
| `SuffixExamples` | legal inputs: one on which the suffix sorter succeeds, and one for each way to fail |
| `DistributedSort`, `EmptyRanks`, `SampleSort`, `SampleSorters` | what a distributed sort owes its caller, when it cannot help leaving a rank without data, the sample sort, and which sorts the suffix sorter may use |
| `Segments`, `Scans`, `RankArithmetic`, `ReceiveBuffers`, `Alltoall`, `RootedCollectives` | counts, displacements and buffer sizes of the vectorised collectives |
| `Reductions` | user-defined operators under every bracketing and rank order |
| `TestCollection` | the many-senders, one-collector protocol that brings test results to rank 0 |
| `Ownership` | who frees which communicator |
| `NamedParameters`, `ResultAssembly` | the compile-time check and selection of named parameters, and what a call returns |
| `Sequences`, `Wrappers` | shared facts |

## What was found

Where the code does not do what its documentation says, the model follows the code, a lemma gives the failing
input, and another says exactly when the code is right.

- **Packing.** The first symbol of a window is packed twice (`prefix_doubling.hpp:132-136`). If the symbols fill
  the word (bits per symbol times symbols per word is the width of the word) the extra copy is shifted out and
  the result is the suffix array. Otherwise the result is *never* the suffix array of the input
  (`SuffixSorting.ResultIsSuffixArrayIff`): some symbol is always sorted before a smaller one. With four byte values
  in words of 16, 32 or 64 bits the program does come to such a result (`SuffixExamples.LeftOverInputIsMissorted`).
- **Termination.** Second rank 0 means "past the end" and is also the rank of the smallest window. The loop is
  sure to end on the packed keys if and only if the number of symbols per word is not a power of two
  (`Packing.PackedFinishesIff`; for keys in general `Doubling.FinishesIff`). For word widths that are powers of
  two this and the condition for the right result exclude each other (`Packing.FilledWordMeansPowerOf2`), so there it
  depends on the text: the loop goes on for ever if and only if, for some shift D that reaches from the smallest suffix
  past the end, the D symbols before this suffix are the last D of the text (`Agreement.TextFinishesIff`; for any first
  keys `Endings.FinishesOnIff`). Otherwise it ends early and the result is right (`SuffixSorting.SortSuffixes`), as on
  one byte value with a greater one at the end (`SuffixExamples.MarkedInputIsSorted`). On one byte value repeated
  2w + 2 times in words of w bits it shifts an index by its whole width (`SuffixExamples.UniformInputEndsInShift`).
- **Neighbours.** A rank packs windows that reach into the next rank's text, but receives that rank's *last*
  characters. The packed entries are right if and only if every rank but the first begins with the characters it ends
  with (`FirstKeys.ExactEntriesIff`). Where they are wrong the loop still ends under the conditions above, and the
  result is right if and only if the first keys agree with the text all the same (`Agreement.ResultIsRightIff`, which
  also covers left-over bits); for a text on two ranks they do not (`SuffixExamples.TwoRanksInputIsMissorted`).
- **Empty ranks.** Ranks read element 0 after each sort. As equal keys must meet on one rank, a sort is forced to leave a
  rank without data if and only if there are fewer different keys than ranks (`EmptyRanks.EmptyRankIsForcedIff`). So
  the program reads an empty vector whenever the ranks see fewer different windows than there are ranks, for instance on
  one byte value on 2w + 1 ranks (`SuffixExamples.CrowdedInputRunsEmpty`); with a sort that leaves no rank empty
  without need (`SampleSorters.SpreadSortIsGenerous`) it does so on no other input (`SuffixSorting.SortSuffixes`).
  Sample sort is not one of these: two equal splitters are enough (`SampleSort.EqualSplittersLeaveRankEmpty`).
- **Send buffers.** The documentation of `send_buf_out` (`named_parameters.hpp:103-105`) promises that the result returns
  the buffer. No call that has a receive buffer hands its send buffer to the result, so asking for it there does not
  compile. In general a call compiles if and only if it hands back what was asked for, and then the result is as
  documented (`ResultAssembly.ResultIsPromisedIff`, `ResultAssembly.SendBufOutOnCollective`).
- **Parameters.** The uniqueness test after the counting test can never fail
  (`NamedParameters.UniquenessTestIsRedundant`).

Numbers are unbounded unless their width matters: index arithmetic of the suffix sorter is modulo 2^w and its masks
and shifts are written out bit by bit; counts and displacements of the collectives must fit `int`, as the code demands.
The sort of the suffix sorter is a parameter that meets `DistributedSort.SortContract`;
`SampleSorters.SampleSortIsSorter` shows that sample sort does, for all samples. The wrapper form of the sample sort
(`sample-sort/__mping.hpp`) is the same algorithm; the model exchanges the buckets through its model of `alltoallv`.

## Model

| member | source | states |
|---|---|---|
| SuffixSorting.SortSuffixes | examples/applications/suffix-sorting/prefix_doubling.hpp:161-260 | for any number of ranks, any text and any sorts that meet the contract, whatever the ranks packed: a result lists every position once, in the order of its all-different keys, and is the suffix array if and only if the first keys agree with the text; unless a rank runs empty, the loop runs into an illegal shift if and only if the first keys repeat, and otherwise ends within ceil(log2 n) - start rounds; it ends in an empty rank if there are fewer first keys than ranks, and with sorts that leave no rank empty if it can be helped only then. With fitting halos, as always on one rank, the result is the suffix array exactly if the symbols fill the word, and then, for k a power of two, there is a result exactly if the end of the text does not repeat what comes before its smallest suffix |
| SuffixSorting.ResultIsSuffixArrayIff | examples/applications/suffix-sorting/prefix_doubling.hpp:102-139 | sorting by the final keys yields the suffix array of the input if and only if bits per symbol times symbols per word is the word width |
| SuffixSorting.FewRounds | examples/applications/suffix-sorting/prefix_doubling.hpp:176-252 | from any keys of which the ties lie inside the text, as the packed keys of every input do, the number of unfinished rounds is bounded and no shift reaches the width of the index type, if k is not a power of two |
| SuffixSorting.EndingIsForced | examples/applications/suffix-sorting/prefix_doubling.hpp:176-252 | for any k, a loop that ends does so within the round bound and its first keys do not repeat; one that reaches an illegal shift has keys that repeat and would go on for ever |
| SuffixSorting.SortEntries | examples/applications/suffix-sorting/prefix_doubling.hpp:166-259 | the same from the packed entries of all ranks, right or not: order of a result, the exact condition for it to be the suffix array, for the loop to end, and for a rank to run empty |
| SuffixSorting.FittingResultIff | examples/applications/suffix-sorting/prefix_doubling.hpp:108-259 | where the ranks see the windows of the text, positions sorted by the final keys are the suffix array if and only if no bits are left over |
| SuffixSorting.FittingRepeatIff | examples/applications/suffix-sorting/prefix_doubling.hpp:108-252 | where the ranks see the windows of the text, no bits are left over and k is a power of two, the first keys repeat if and only if the text does |
| SuffixSorting.FittingOutcome | examples/applications/suffix-sorting/prefix_doubling.hpp:108-259 | with fitting halos both the result and whether there is one can be read off the text |
| SuffixSorting.CodedEndRepeats | examples/applications/suffix-sorting/prefix_doubling.hpp:97-100 | recoding the symbols does not change whether the text repeats at its end what comes before its smallest suffix |
| SuffixSorting.InputTiesAreInside | examples/applications/suffix-sorting/prefix_doubling.hpp:108-139 | equal first keys of different positions are followed by 2k characters of the text, on any number of ranks |
| SuffixSorting.MakeEntries | examples/applications/suffix-sorting/prefix_doubling.hpp:82-144 | the ranks start with entries that list every position once with the key its rank packs |
| SuffixSorting.ReduceAlphabet | examples/applications/suffix-sorting/prefix_doubling.hpp:82-144 | alphabet, exchange with the neighbour and packing on all ranks produce exactly the specified first entries and the starting iteration |
| SuffixSorting.ComputeAlphabet | examples/applications/suffix-sorting/prefix_doubling.hpp:89-106 | the map on all ranks gives each byte of the text its place among the bytes that occur and 0 to the others, the bits per symbol are the fewest that hold all these values and 0, and as many symbols are packed as fit |
| SuffixSorting.SymbolsFit | examples/applications/suffix-sorting/prefix_doubling.hpp:102-106 | between 1 and 8 bits per symbol, at least one symbol per word, and fewer bits left over than a symbol takes |
| SuffixSorting.PackWord | examples/applications/suffix-sorting/prefix_doubling.hpp:132-137 | the inner loop computes the word in which the first symbol is packed twice |
| SuffixSorting.PackLocal | examples/applications/suffix-sorting/prefix_doubling.hpp:128-139 | one entry per local position, with consecutive global indices and both packed words |
| SuffixSorting.PackRank | examples/applications/suffix-sorting/prefix_doubling.hpp:108-139 | the buffer of a rank, its own characters and what it received or zeros, leads to the specified entries of that rank |
| SuffixSorting.PaddedBufferAt | examples/applications/suffix-sorting/prefix_doubling.hpp:108-125 | place by place: the characters of the rank, then the last 2k characters of the next rank in order, or zeros on the last rank |
| SuffixSorting.SymbolsPackedInWrongOrder | examples/applications/suffix-sorting/prefix_doubling.hpp:97-139 | if bits are left over, every text contains both symbols whose order the packing inverts |
| SuffixSorting.HalosFitCoded | examples/applications/suffix-sorting/prefix_doubling.hpp:97-125 | recoding the symbols does not change whether the exchanged characters are the right ones |
| SuffixExamples.MarkedInputIsSorted | examples/applications/suffix-sorting/prefix_doubling.hpp:82-259 | for words of any even number of bits, one byte repeated and a greater one at the end are sorted on one rank into their suffix array |
| SuffixExamples.UniformInputIsLegal | examples/applications/suffix-sorting/prefix_doubling.hpp:82-143 | one byte repeated 2w + 2 times meets every precondition of the program and takes one bit per symbol |
| SuffixExamples.UniformInputEndsInShift | examples/applications/suffix-sorting/prefix_doubling.hpp:142-252 | on that input and words of 2^v bits the program never comes to a result: it shifts by the width of a word |
| SuffixExamples.LeftOverInputIsMissorted | examples/applications/suffix-sorting/prefix_doubling.hpp:102-139 | with four byte values in words of 2^v >= 16 bits the program does end, on one rank, with something else than the suffix array |
| SuffixExamples.TwoRanksInputIsMissorted | examples/applications/suffix-sorting/prefix_doubling.hpp:108-139 | a legal text on two ranks, whose symbols fill the word, is sorted into something else than its suffix array because the first rank packs the wrong characters; it does end so with sorts that leave no rank empty |
| SuffixExamples.TwoRanksAreMissorted | examples/applications/suffix-sorting/prefix_doubling.hpp:108-252 | for this text no number of rounds puts right what the first keys confuse |
| SuffixExamples.UniformHasFewKeys | examples/applications/suffix-sorting/prefix_doubling.hpp:128-139 | keys that tell windows of length h apart take at most h values on a text of one symbol |
| SuffixExamples.CrowdedInputRunsEmpty | examples/applications/suffix-sorting/prefix_doubling.hpp:176-252 | one byte on 2w + 1 ranks, 2w + 1 times on each, is legal input and leaves a rank without data for every sort that meets the contract |
| FirstKeys.ExactEntriesIff | examples/applications/suffix-sorting/prefix_doubling.hpp:108-138 | all entries of all ranks pack the windows of the text if and only if every rank but the first begins with the characters it ends with; always on one rank |
| FirstKeys.SeenAfterOwn | examples/applications/suffix-sorting/prefix_doubling.hpp:112-125 | the character h places after the last one of a rank is, for the packing, the one h places into the last 2k of the next rank |
| FirstKeys.HalosFitIff | examples/applications/suffix-sorting/prefix_doubling.hpp:112-125 | the received characters are right on all ranks if and only if every rank but the first begins with the 2k - 1 characters that its last 2k begin with |
| FirstKeys.EntryIsExactIff | examples/applications/suffix-sorting/prefix_doubling.hpp:112-138 | an entry is exact if and only if its rank sees the 2k characters of the text from there on |
| FirstKeys.LastEntryIsExactIff | examples/applications/suffix-sorting/prefix_doubling.hpp:112-137 | the entry of the last position of a rank alone is exact if and only if the received characters are right |
| FirstKeys.FirstKeysTieInside | examples/applications/suffix-sorting/prefix_doubling.hpp:108-139 | whatever the ranks received, equal first keys of different positions never reach past the end of the text: only the last rank packs padding |
| FirstKeys.FittingFirstKeys | examples/applications/suffix-sorting/prefix_doubling.hpp:108-139 | with fitting halos the first keys are the packed windows of the whole text |
| FirstKeys.EntriesHoldKeys | examples/applications/suffix-sorting/prefix_doubling.hpp:108-139 | the entries of all ranks list every position once with its key, and with fitting halos the keys are the packed windows of the whole text |
| Packing.PackMeaning | examples/applications/suffix-sorting/prefix_doubling.hpp:132-137 | the packed word is the number whose digits are the symbols, plus the left-over copy of the first symbol |
| Packing.PackInjective | examples/applications/suffix-sorting/prefix_doubling.hpp:132-137 | for every word and symbol width two packed words are equal if and only if their k symbols are |
| Packing.PackOrder | examples/applications/suffix-sorting/prefix_doubling.hpp:132-137 | when the symbols fill the word, numeric order of packed words is lexicographic order of the windows |
| Packing.PackDisorder | examples/applications/suffix-sorting/prefix_doubling.hpp:132-137 | otherwise the low bits of the first symbol decide first |
| Packing.PackedKeysSeparate | examples/applications/suffix-sorting/prefix_doubling.hpp:131-138 | the first keys are equal if and only if the padded windows of 2k symbols are |
| Packing.PackedKeysOrder | examples/applications/suffix-sorting/prefix_doubling.hpp:131-138 | when the symbols fill the word, the first keys order the padded windows of 2k symbols lexicographically |
| Packing.PackedKeyEqualIff | examples/applications/suffix-sorting/prefix_doubling.hpp:131-138 | also the keys of two different texts, as two ranks see them, are equal if and only if the windows of 2k symbols are |
| Packing.FirstShift | examples/applications/suffix-sorting/prefix_doubling.hpp:142 | the first shift is the greatest power of two up to 2k, and below 2k exactly if k is not a power of two |
| Packing.FilledWordGivesSuffixArray | examples/applications/suffix-sorting/prefix_doubling.hpp:128-259 | when the symbols fill the word, sorting by the keys after any number of rounds gives the suffix array |
| Packing.UnfilledWordGivesNoSuffixArray | examples/applications/suffix-sorting/prefix_doubling.hpp:132-139 | when they do not and the text contains both critical symbols, it gives something else |
| Packing.RoundsAreBounded | examples/applications/suffix-sorting/prefix_doubling.hpp:142-252 | ties that lie 2k characters inside the text alone bound the rounds and keep every shift below the text length, if k is not a power of two |
| Packing.UniformTextNeverFinishesPacked | examples/applications/suffix-sorting/prefix_doubling.hpp:142-252 | for every word and symbol width and k a power of two, the packed keys of a uniform text of 2k + 2 symbols keep two equal entries for ever |
| Packing.PackedFinishesIff | examples/applications/suffix-sorting/prefix_doubling.hpp:128-252 | for every word and symbol width the loop ends on the packed keys of every text if and only if the number of symbols per word is not a power of two |
| Packing.PackedRepeatIff | examples/applications/suffix-sorting/prefix_doubling.hpp:128-252 | if k is a power of two and no bits are left over, the packed keys repeat if and only if the text does |
| Packing.FilledWordMeansPowerOf2 | examples/applications/suffix-sorting/prefix_doubling.hpp:103-142 | in a word of 2^v bits, symbols that fill the word come in a power of two, so the condition for the right result excludes the one for termination |
| Alphabet.CountSymbols | examples/applications/suffix-sorting/prefix_doubling.hpp:89-92 | the local histogram counts every byte value |
| Alphabet.CountIsMultiplicity | examples/applications/suffix-sorting/prefix_doubling.hpp:89-92 | the count of a byte is its multiplicity in the text |
| Alphabet.AllreduceHistogram | examples/applications/suffix-sorting/prefix_doubling.hpp:94-95 | the sum over all ranks is the histogram of the whole text |
| Alphabet.BuildMap | examples/applications/suffix-sorting/prefix_doubling.hpp:97-100 | the in-place transform gives each used byte value the number of used values up to it, and 0 to the others |
| Alphabet.CodeOrder | examples/applications/suffix-sorting/prefix_doubling.hpp:97-100 | the map keeps the order of used byte values, is injective on them, and stays within 1..sigma |
| Alphabet.CodeIsOnto | examples/applications/suffix-sorting/prefix_doubling.hpp:97-100 | every number in 1..sigma is the code of some used byte value |
| Alphabet.CodeIsPlace | examples/applications/suffix-sorting/prefix_doubling.hpp:97-100 | the code of a used byte is the number of used bytes up to it, and an unused byte has code 0 |
| Alphabet.UsedIsAlphabet | examples/applications/suffix-sorting/prefix_doubling.hpp:97-100 | the used bytes are the characters of the text, and there are as many codes as different characters |
| Alphabet.CodedHasSameSuffixArray | examples/applications/suffix-sorting/prefix_doubling.hpp:97-100 | a permutation is the suffix array of the recoded text if and only if it is that of the text |
| Doubling.RoundOrders | examples/applications/suffix-sorting/prefix_doubling.hpp:187-250 | if the keys order windows of length h and the shift is below h, the next keys order windows of length h plus the shift |
| Doubling.RoundSeparates | examples/applications/suffix-sorting/prefix_doubling.hpp:187-250 | the same for "equal keys if and only if equal windows" |
| Doubling.RoundSound | examples/applications/suffix-sorting/prefix_doubling.hpp:187-250 | keys that never contradict the order of suffixes keep doing so, also when the shift equals the window length |
| Doubling.RankFromOrder | examples/applications/suffix-sorting/prefix_doubling.hpp:187-195 | in any sorted order, the first position of a run of equal keys is the number of smaller keys |
| Doubling.CountSmallerIsCardinality | examples/applications/suffix-sorting/prefix_doubling.hpp:187-195 | the rank of a key is the number of text positions with a smaller one |
| Doubling.RankBelowSize | examples/applications/suffix-sorting/prefix_doubling.hpp:187-195 | a rank is below the number of positions, so it fits the index type |
| Doubling.KeysAfterOrder | examples/applications/suffix-sorting/prefix_doubling.hpp:176-252 | after any number of rounds the keys order windows of the accumulated length, lexicographically |
| Doubling.KeysAfterSeparate | examples/applications/suffix-sorting/prefix_doubling.hpp:176-252 | after any number of rounds keys are equal if and only if windows of the accumulated length are |
| Doubling.KeysAfterRefine | examples/applications/suffix-sorting/prefix_doubling.hpp:176-252 | an order between two positions, once found, is never given up |
| Doubling.WrongOrderStays | examples/applications/suffix-sorting/prefix_doubling.hpp:176-259 | if two first keys contradict the order of the suffixes, no number of rounds gives the suffix array |
| Doubling.KeysAfterTiesInside | examples/applications/suffix-sorting/prefix_doubling.hpp:176-252 | every round moves ties further inside the text by its shift |
| Doubling.SoundKeysGiveSuffixArray | examples/applications/suffix-sorting/prefix_doubling.hpp:176-259 | whenever all keys are different, sorting by them gives the suffix array: suffixes in lexicographic order |
| Doubling.UnfinishedMeansShortShift | examples/applications/suffix-sorting/prefix_doubling.hpp:176-252 | if equal keys lie further inside the text than the first shift, then while keys are tied the shift is below the text length and the number of rounds below its bound |
| Doubling.RoundBoundIsLeast | examples/applications/suffix-sorting/prefix_doubling.hpp:176-252 | the bound on the rounds is the least number after which the shift is no shorter than the text |
| Doubling.KeysBecomeDistinct | examples/applications/suffix-sorting/prefix_doubling.hpp:176-252 | from such keys all are different after max(0, ceil(log2 n) - start) rounds, whether they stand for windows of the text or not |
| Doubling.LongShiftsAreStuck | examples/applications/suffix-sorting/prefix_doubling.hpp:245-249 | two tied positions for which the shift leaves the text stay tied for ever |
| Doubling.UniformTextNeverFinishes | examples/applications/suffix-sorting/prefix_doubling.hpp:188-249 | with first windows of exactly the first shift, positions 1 and 2 of a uniform text stay tied for ever |
| Doubling.FinishesIff | examples/applications/suffix-sorting/prefix_doubling.hpp:142-252 | the loop ends for every text and all keys that order its windows if and only if the first windows are longer than the first shift |
| ChainOrder.KeysFollowChains | examples/applications/suffix-sorting/prefix_doubling.hpp:176-252 | for any first keys and any number of rounds, different keys are in the order of the chains of first keys, and equal keys stand for chains that agree as far as the shifts have reached |
| ChainOrder.LeastHasRankZero | examples/applications/suffix-sorting/prefix_doubling.hpp:187-195 | rank 0, which also stands for the end of the text, belongs in every round to the least chain and what is tied with it |
| Endings.FinishesOnIff | examples/applications/suffix-sorting/prefix_doubling.hpp:176-252 | for any first keys whose ties lie inside the text, the loop ends on these keys if and only if they do not repeat at the end of the text what comes before the least position |
| Endings.RepeatIsStuck | examples/applications/suffix-sorting/prefix_doubling.hpp:188-249 | if they do, the two places before the least position and before the end stay tied for ever |
| Endings.StuckMeansRepeat | examples/applications/suffix-sorting/prefix_doubling.hpp:188-249 | the last pair of positions that stays tied for ever shows the repetition |
| Endings.FinishesInTime | examples/applications/suffix-sorting/prefix_doubling.hpp:176-252 | a loop that ends at all has all keys different after max(0, ceil(log2 n) - start) rounds |
| Agreement.ResultIsRightIff | examples/applications/suffix-sorting/prefix_doubling.hpp:176-259 | whatever the first keys stand for, positions sorted by all-different keys are the suffix array if and only if different first keys are in the order of the suffixes, and suffixes with equal ones compare as those one first shift further on |
| Agreement.OrderingKeysAgree | examples/applications/suffix-sorting/prefix_doubling.hpp:128-139 | first keys that order windows meet this condition |
| Agreement.KeysRepeatIff | examples/applications/suffix-sorting/prefix_doubling.hpp:142-252 | for first keys that order windows as long as the first shift, keys repeat if and only if the text ends as it does before its smallest suffix |
| Agreement.TextFinishesIff | examples/applications/suffix-sorting/prefix_doubling.hpp:142-252 | for each text and such keys, the loop goes on for ever if and only if the D symbols before the smallest suffix are the last D of the text, for a shift D that reaches from there past the end |
| PrefixDoubling.DoublePrefixes | examples/applications/suffix-sorting/prefix_doubling.hpp:176-252 | the loop follows the keys round by round; a result is sorted by the final keys, which are all different; the two undefined endings are named with their cause, and an empty rank is forced by fewer keys than ranks and otherwise only by a sort that could have avoided it |
| PrefixDoubling.RoundKeepsKeysApart | examples/applications/suffix-sorting/prefix_doubling.hpp:187-250 | a round never lowers the number of different keys |
| PrefixDoubling.RunPass | examples/applications/suffix-sorting/prefix_doubling.hpp:177-251 | one pass turns entries that hold the keys into entries that hold the doubled keys, or ends with the indices sorted by all-different keys |
| PrefixDoubling.ComputeRanks | examples/applications/suffix-sorting/prefix_doubling.hpp:181-210 | ranks on all processes from the offsets of the local sizes, and the global AND of the local tests |
| PrefixDoubling.AssignRanks | examples/applications/suffix-sorting/prefix_doubling.hpp:188-195 | each entry gets the offset plus the start of its run of equal pairs |
| PrefixDoubling.LocallyDistinct | examples/applications/suffix-sorting/prefix_doubling.hpp:198-204 | the loop with early exit tells whether all neighbours differ |
| PrefixDoubling.AssignedRankIsGlobal | examples/applications/suffix-sorting/prefix_doubling.hpp:181-195 | the rank assigned on a process is the number of smaller keys in the whole text, so ranks of different processes never collide |
| PrefixDoubling.DistinctIff | examples/applications/suffix-sorting/prefix_doubling.hpp:197-210 | the global AND is true if and only if all n keys are different |
| PrefixDoubling.IndexLessMeaning | examples/applications/suffix-sorting/prefix_doubling.hpp:213-223 | with masks on w-bit words the second order is by index mod 2^it, then by index |
| PrefixDoubling.SuccessorIsNext | examples/applications/suffix-sorting/prefix_doubling.hpp:213-247 | after the second sort the entry after i, also across ranks, is i + 2^it whenever that is in the text |
| PrefixDoubling.PairWithNextIsDoubling | examples/applications/suffix-sorting/prefix_doubling.hpp:243-250 | the neighbour test finds the second rank exactly if it exists, although the index sum may wrap around |
| PrefixDoubling.WrappedIndexIsNotNext | examples/applications/suffix-sorting/prefix_doubling.hpp:246 | an index sum that wraps around never makes a wrong neighbour pass the test with a larger index |
| PrefixDoubling.ExchangeFronts | examples/applications/suffix-sorting/prefix_doubling.hpp:228-231 | every rank receives the front entry of the next one, going around the communicator |
| PrefixDoubling.PairRanks | examples/applications/suffix-sorting/prefix_doubling.hpp:239-250 | the local loop over the extended vector pairs every entry with its successor |
| PrefixDoubling.ComputePairs | examples/applications/suffix-sorting/prefix_doubling.hpp:225-250 | border exchange and pairing on all ranks |
| PrefixDoubling.PairedHoldsPairs | examples/applications/suffix-sorting/prefix_doubling.hpp:225-250 | the distributed pairing is one round of doubling on the whole text |
| PrefixDoubling.ExtractIndices | examples/applications/suffix-sorting/prefix_doubling.hpp:253-259 | the result of each rank are the indices of its entries |
| EmptyRanks.EmptyRankIsForcedIff | examples/applications/suffix-sorting/prefix_doubling.hpp:177-223 | every result that meets the sort contract leaves a rank without data if and only if there are fewer different keys than ranks |
| EmptyRanks.FewKeysLeaveRankEmpty | examples/applications/suffix-sorting/prefix_doubling.hpp:177-223 | equal keys meet on one rank, so fewer keys than ranks leave one without data |
| EmptyRanks.SpreadSortKeepsContract | examples/applications/suffix-sorting/prefix_doubling.hpp:177-223 | one run of equal keys per rank and the rest on the last rank meets the contract, and leaves no rank empty if there are enough keys |
| SampleSort.PickSplitters | examples/applications/sample-sort/common.hpp:21-28 | sorting and overwriting in place leaves every ratio-th sample: no read sees an overwritten value |
| SampleSort.SplittersAreSorted | examples/applications/sample-sort/common.hpp:21-28 | the splitters are sorted, as upper bound needs |
| SampleSort.UpperBound | examples/applications/sample-sort/common.hpp:34 | binary search finds the one position with nothing above x before it and only larger splitters from it on |
| SampleSort.BuildBuckets | examples/applications/sample-sort/common.hpp:30-39 | each bucket holds exactly the elements with that upper bound, in input order |
| SampleSort.BucketPositions | examples/applications/sample-sort/common.hpp:30-39 | a bucket lists the elements at exactly the positions with that upper bound, from first to last |
| SampleSort.FlattenBuckets | examples/applications/sample-sort/mpi.hpp:40-47 | the loop yields the concatenation, the sizes and their exclusive scan |
| SampleSort.EnoughSamples | examples/applications/sample-sort/mpi.hpp:24-38 | with 16 log2(p) + 1 samples per rank the last splitter read is in bounds |
| SampleSort.SplitLocal | examples/applications/sample-sort/mpi.hpp:38-47 | one rank: splitters, buckets, counts and displacements |
| SampleSort.ExchangeBuckets | examples/applications/sample-sort/mpi.hpp:48-63 | count exchange and alltoallv deliver to each rank its bucket of every rank, in rank order |
| SampleSort.Sort | examples/applications/sample-sort/mpi.hpp:20-66 | for every number of ranks p, input and samples the result is globally sorted, a permutation of all inputs, and keeps equal elements on one rank; an element on rank r has more than (16 log2(p) + 1) r of the gathered samples not above it, unless r is the first rank, and at most (16 log2(p) + 1)(r + 1), unless r is the last |
| SampleSort.SampleSortedIsSliced | examples/applications/sample-sort/mpi.hpp:24-66 | the same slices for every number of samples per rank |
| SampleSort.CountInSorted | examples/applications/sample-sort/common.hpp:21-28 | in sorted samples more than m are not above x if and only if the one at place m is not |
| SampleSort.SampleSortedKeepsContract | examples/applications/sample-sort/mpi.hpp:26-65 | the specification of the whole algorithm meets the sort contract for arbitrary splitters |
| SampleSort.RankHoldsItsBucket | examples/applications/sample-sort/mpi.hpp:48-65 | rank r ends up with exactly elements of bucket r, so equal elements meet on one rank |
| SampleSort.RankIsEmptyIff | examples/applications/sample-sort/mpi.hpp:48-65 | a rank ends up without data if and only if no element of any rank belongs to its bucket |
| SampleSort.EqualSplittersLeaveRankEmpty | examples/applications/sample-sort/common.hpp:21-39 | two equal neighbouring splitters leave a rank without data, for every input |
| SampleSorters.SampleSortIsSorter | examples/applications/suffix-sorting/prefix_doubling.hpp:177-223 | sample sort with any splitters is a sorter as the suffix sorter assumes, for both of its orders |
| SampleSorters.SpreadSortIsGenerous | examples/applications/suffix-sorting/prefix_doubling.hpp:177-223 | for both orders there is a sort that leaves a rank empty only if there are fewer keys than ranks |
| ReceiveBuffers.RequiredRecvBufSize | include/__mping/collectives/collectives_helpers.hpp:33-55 | the O(1) branch and the O(p) branch both compute the greatest end of a segment, and it fits int |
| ReceiveBuffers.MaxEndIsLeast | include/__mping/collectives/collectives_helpers.hpp:44-53 | the maximum is the least size into which every segment fits |
| ReceiveBuffers.MaxEndOfScan | include/__mping/collectives/collectives_helpers.hpp:37-43 | for exclusive-scan displacements the last end, the sum of the counts and the maximum agree |
| ReceiveBuffers.ArrivedHolds | include/__mping/collectives/alltoall.hpp:461-493 | segments with disjoint places stand in the receive buffer at their displacements, and every place that no segment reaches is as in a fresh buffer |
| Alltoall.ExchangeBlocks | include/__mping/collectives/alltoall.hpp:128-178 | the count inferred from the buffer size is the block size |
| Alltoall.AlltoallAt | include/__mping/collectives/alltoall.hpp:154-178 | the elements s blocks into the buffer that rank r receives are those r blocks into the buffer that rank s sent |
| Alltoall.AlltoallBlocks | include/__mping/collectives/alltoall.hpp:154-178 | block s received by r is block r sent by s |
| Alltoall.AlltoallTwice | include/__mping/collectives/alltoall.hpp:225-288 | a second alltoall, as in place, restores every buffer |
| Alltoall.AlltoallOfCounts | include/__mping/collectives/alltoall.hpp:418-423 | inferring the receive counts transposes the matrix of send counts |
| Alltoall.Alltoallv | include/__mping/collectives/alltoall.hpp:411-493 | with any mix of given and inferred counts and displacements, in the buffer of rank r what rank s sent from its displacement for r stands at the displacement of s, unless given places overlap; buffers have the least size; inferred values are exactly the transposed counts and the scans |
| Alltoall.AlltoallvTwice | include/__mping/collectives/alltoall.hpp:411-493 | two calls of alltoallv, the second with the received counts and from where the segments arrived, give every rank all its send segments back, in order, and its send counts; for computed displacements and given ones that do not overlap |
| Alltoall.TransposedLengths | include/__mping/collectives/alltoall.hpp:418-423 | the transposed counts are the sizes of the segments that arrive |
| Alltoall.AlltoallvConserves | include/__mping/collectives/alltoall.hpp:473-493 | as many elements arrive in total as were counted |
| Alltoall.ExchangeIsPermutation | include/__mping/collectives/alltoall.hpp:483-493 | what arrives on all ranks is a permutation of what was sent |
| RootedCollectives.Gatherv | include/__mping/collectives/gather.hpp:288-388 | the root infers counts, displacements and size; the first elements of every rank, as many as it counts, stand in its buffer at their displacement, unless given places overlap, and one after another if they were inferred; all other receive buffers stay as they were |
| RootedCollectives.Allgatherv | include/__mping/collectives/allgather.hpp:363-445 | every rank infers counts and displacements and gets the same buffer, also where displacements leave gaps or overlap; in it the first elements of every rank, as many as it counts, stand at their displacement, unless given places overlap |
| RootedCollectives.AllgathervThenGatherv | include/__mping/collectives/allgather.hpp:363-445 | with the same arguments every rank gets from allgatherv what the root gets from gatherv, whatever the root |
| RootedCollectives.Scatterv | include/__mping/collectives/scatter.hpp:413-475 | every rank receives the elements that stand at its displacement in the buffer of the root, as many as its count says, with the inferred receive count and displacements |
| RootedCollectives.ScatterThenGather | include/__mping/collectives/scatter.hpp:413-475 | scatterv followed by gatherv restores the root's data |
| RootedCollectives.GatherThenScatter | include/__mping/collectives/gather.hpp:316-388 | gatherv followed by scatterv with the inferred counts restores every rank's data |
| Segments.ScanIsDisjoint | include/__mping/collectives/alltoall.hpp:438-464 | segments at scanned displacements do not overlap |
| Segments.OverwriteAllKeeps | include/__mping/collectives/alltoall.hpp:483-493 | segments written to disjoint places can all be read back |
| Segments.ScanFillsBuffer | include/__mping/collectives/alltoall.hpp:461-493 | with inferred displacements the receive buffer is the concatenation of the segments by source, with no gap |
| Segments.CutOfFlatten | include/__mping/collectives/alltoall.hpp:435-439 | cutting a concatenation at the scanned displacements gives the parts back |
| Segments.SumByColumns | include/__mping/collectives/alltoall.hpp:418-423 | the received counts add up to the sent counts |
| Scans.ComputeExclusiveScan | include/__mping/collectives/alltoall.hpp:435-439 | the loop computes the prefix sums, all within int |
| Scans.ScanIsOffset | examples/applications/suffix-sorting/prefix_doubling.hpp:181-182 | the exclusive scan of the local sizes is where each rank's data starts in the concatenation: the ranks tile it |
| Scans.Exscan | include/__mping/collectives/exscan.hpp:152-200 | rank 0 gets the given values, or the single given value everywhere, before the identity, or keeps what MPI left there; rank 1 gets the values of rank 0 and every further rank what the rank before it got combined with its values, that is the reduction over the ranks before it, in rank order |
| Scans.ExscanSingle | include/__mping/collectives/exscan.hpp:377-398 | for sums of one value per rank the result is the exclusive scan, with or without a given 0 |
| RankArithmetic.RankShiftedCyclicIsModulo | include/__mping/communicator.hpp:428-431 | with truncating remainders and a capped distance the result is (rank + distance) mod size, for every int distance |
| RankArithmetic.ShiftsAreInverse | include/__mping/communicator.hpp:428-431 | what every rank sends to distance d is received from distance -d |
| RankArithmetic.SumStaysIntIff | include/__mping/communicator.hpp:428-431 | the sum before the last remainder stays within int for every rank and distance if and only if three times the size is at most MAX_INT + 2 |
| Reductions.Merge | examples/applications/top_k_reduce_example.cpp:33-47 | merge of two lists of K never leaves its inputs and writes the first K of the merged sequence |
| Reductions.MergeIsSmallest | examples/applications/top_k_reduce_example.cpp:33-47 | on sorted inputs the output is sorted and nothing left out is smaller |
| Reductions.MergedFollowsHeads | examples/applications/top_k_reduce_example.cpp:36-46 | on any two lists of one length, sorted or not, every output is the smaller of the two current elements, the right one on a tie, and only the index it came from moves |
| Reductions.MergeLaws | examples/applications/top_k_reduce_example.cpp:33-47 | on sorted inputs merge is commutative and associative |
| Reductions.MergeInto | examples/applications/top_k_reduce_example.cpp:76-81 | the operator combines both vectors element by element in place |
| Reductions.TopKOfTree | examples/applications/top_k_reduce_example.cpp:76-85 | over any bracketing the result is the K smallest elements of the lists at the leaves |
| Reductions.TopKReduction | examples/applications/top_k_reduce_example.cpp:76-85 | for every bracketing and every order of the ranks the reduction yields the K smallest elements of all lists |
| Reductions.EqualOfTree | include/__mping/comm_helper/is_same_on_all_ranks.hpp:49-66 | over any bracketing the flag says whether all leaves hold the same value, and the value is that of the first leaf |
| Reductions.SameOnAllRanks | include/__mping/comm_helper/is_same_on_all_ranks.hpp:49-79 | for every bracketing and every order the flag is true if and only if all ranks hold the same value, so all ranks get the same answer |
| TestCollection.TraceKeepsInvariant | extern/gtest-mpi-listener/gtest-mpi-listener.hpp:361-438 | in every interleaving, with every choice of buffering and over any number of tests, no receive gets a message of the wrong kind or size |
| TestCollection.FinishedMeansDelivered | extern/gtest-mpi-listener/gtest-mpi-listener.hpp:361-438 | at the end rank 0 has every result of every rank, test by test and in order, and no message, count or sender is left over |
| TestCollection.ReportsArePrefix | extern/gtest-mpi-listener/gtest-mpi-listener.hpp:361-438 | at any time the finished reports are exact: results of one test never mix with the next, although no barrier separates them |
| TestCollection.NoDeadlock | extern/gtest-mpi-listener/gtest-mpi-listener.hpp:361-438 | until then some step is possible even if nothing is ever buffered |
| TestCollection.FastRankRunsAhead | extern/gtest-mpi-listener/gtest-mpi-listener.hpp:361-384 | there is no barrier: some interleaving, with messages buffered, lets a rank send the results of any number of tests before rank 0 and the other ranks do anything |
| TestCollection.TracesAreBounded | extern/gtest-mpi-listener/gtest-mpi-listener.hpp:361-438 | no interleaving is longer than a bound fixed by the numbers of tests, ranks and results |
| TestCollection.NextMessageIsExpected | extern/gtest-mpi-listener/gtest-mpi-listener.hpp:409-419 | the next message in a channel is the field that rank 0 waits for |
| TestCollection.DecodeEncode | extern/gtest-mpi-listener/gtest-mpi-listener.hpp:182-242 | six messages are accepted and rebuild the result if and only if, where the null is sent too, the strings contain none |
| TestCollection.AcceptedAfter | extern/gtest-mpi-listener/gtest-mpi-listener.hpp:216-228 | after the first j messages of a result the receive takes a number where one is due, not negative if it is a size, and a text only of the length announced |
| TestCollection.StatusTestsAgreeIff | extern/gtest-mpi-listener/gtest-mpi-listener.hpp:230-240 | the two printers read the same out of a status if and only if it is 0 or 1 |
| TestCollection.CStringOf | extern/gtest-mpi-listener/gtest-mpi-listener.hpp:224-240 | reading a null-terminated buffer as a C string gives the string back if and only if it contains no null |
| TestCollection.ReceiveResults | extern/gtest-mpi-listener/gtest-mpi-listener.hpp:404-422 | the receive loops take exactly the messages of this test and rebuild the results |
| TestCollection.Printer.OnTestPartResult | extern/gtest-mpi-listener/gtest-mpi-listener.hpp:353-354 | the result is appended |
| TestCollection.Printer.SendResults | extern/gtest-mpi-listener/gtest-mpi-listener.hpp:361-438 | the send loop sends six messages for every result, in order: status, size of the file name, line, size of the text, file name and text, with the terminating nulls where the printer counts them; the vector is cleared |
| TestCollection.EncodedMessages | extern/gtest-mpi-listener/gtest-mpi-listener.hpp:181-199 | the same of the messages of the i-th result in the encoding of a list |
| Ownership.StepKeepsInvariant | include/__mping/communicator.hpp:56-136 | every construction, copy, move, swap, assignment, split, release, root change and destruction keeps the books |
| Ownership.EveryHandleAccountedFor | include/__mping/communicator.hpp:82-136 | in every run every communicator is either owned, or the program's own business, or freed exactly once |
| Ownership.OwnerIsUnique | include/__mping/communicator.hpp:82-136 | no communicator has two owners |
| Ownership.NoInvalidFree | include/__mping/communicator.hpp:106-110 | nothing is freed twice and no null or predefined handle is freed |
| Ownership.NothingLeaks | include/__mping/communicator.hpp:106-110 | when all wrappers are gone, everything but what was released has been freed exactly once |
| Ownership.WrappersStayConsistent | include/__mping/communicator.hpp:68-143 | every wrapper, moved from or not, has root < size, and the rank and size of the communicator it wraps |
| Ownership.AssignCopyIsCopyAndSwap | include/__mping/communicator.hpp:121-125 | copy assignment is a copy, a swap and a destruction, also onto itself |
| Ownership.CopyStepsCopy | include/__mping/communicator.hpp:82-125 | in a run, a copy, constructed or assigned, leaves the named wrapper with the rank, size, root and tag of the other, owning a new communicator, and all others as they were |
| Ownership.WrappersAfterStep | include/__mping/communicator.hpp:68-278 | every other step, field by field: what the named wrappers are afterwards, and that all others are as before |
| Ownership.LibraryAfterStep | include/__mping/communicator.hpp:56-136 | the communicators that a step makes, with the rank and size the original knows, and the ones it frees, and no others |
| Ownership.LooseAfterStep | include/__mping/communicator.hpp:68-201 | which handles pass between the program and the wrappers |
| Ownership.Communicator.Copy | include/__mping/communicator.hpp:82-89 | the copy has the rank, size, default root and tag of the original, and owns a new communicator; the original does not change |
| Ownership.Communicator.Move | include/__mping/communicator.hpp:93-103 | handle and ownership move, the other fields stay behind as well |
| Ownership.Communicator.Destroy | include/__mping/communicator.hpp:106-110 | the handle is freed exactly if owned |
| Ownership.Communicator.Swap | include/__mping/communicator.hpp:129-136 | all six fields change places |
| Ownership.Communicator.MoveAssign | include/__mping/communicator.hpp:114-117 | move assignment exchanges the two wrappers |
| Ownership.Communicator.CopyAssign | include/__mping/communicator.hpp:121-125 | afterwards this has the rank, size, default root and tag of the other and owns a new communicator, its old handle is freed if it was owned, and the other is unchanged |
| Ownership.Communicator.Disown | include/__mping/communicator.hpp:198-201 | the handle is returned and no longer owned |
| Ownership.Communicator.SetRoot | include/__mping/communicator.hpp:219-235 | an invalid root is refused and nothing changes |
| Ownership.Construct | include/__mping/communicator.hpp:68-78 | a wrapper comes into being exactly if the root is a rank; otherwise the handle stays with the caller |
| Ownership.Split | include/__mping/communicator.hpp:274-278 | the new wrapper owns the new communicator, with root 0 |
| NamedParameters.FindPosIsFirst | include/__mping/named_parameter_selection.hpp:79-122 | the recursion finds the first occurrence, and the largest size_t exactly if there is none |
| NamedParameters.HasParameterTypeIff | include/__mping/named_parameter_selection.hpp:185-188 | true if and only if the type occurs |
| NamedParameters.AllUniqueIff | include/__mping/named_parameter_check.hpp:329-340 | true if and only if there are no duplicates |
| NamedParameters.CountingTestIff | include/__mping/named_parameter_check.hpp:293-325 | the test by counting holds if and only if the arguments are duplicate-free and all available |
| NamedParameters.UniquenessTestIsRedundant | include/__mping/named_parameter_check.hpp:89-96 | the second assertion can never fail after the first |
| NamedParameters.AcceptsIff | include/__mping/named_parameter_check.hpp:80-97 | the whole check accepts exactly the duplicate-free lists between required and required plus optional |
| NamedParameters.RepeatedOptionHidesUnused | include/__mping/named_parameter_check.hpp:309-323 | if a call listed an option twice, an unsupported parameter would pass |
| NamedParameters.SelectsNamed | include/__mping/named_parameter_selection.hpp:238-251 | the selected value is the one named, and the default only if none is |
| NamedParameters.OrderIsIrrelevant | include/__mping/named_parameter_selection.hpp:131-136 | the check and every selection give the same for any order of the arguments |
| ResultAssembly.ResultIsPromisedIff | include/__mping/result.hpp:1051-1107 | a call compiles if and only if it hands back a buffer of every type the caller asked for, and then the result has every requested owning out buffer once in the caller's order, the unnamed receive buffer first, and nothing else |
| ResultAssembly.ReturnedIff | include/__mping/result.hpp:931-970 | a buffer of the call is returned if and only if the caller passed an owning out parameter of its type, one of those listed as returnable, or it is a receive buffer that owns its data |
| ResultAssembly.AskedForIsReturned | include/__mping/result.hpp:1051-1107 | an owning out parameter for counts, displacements, buffers, types or the status always comes back if the call has it |
| ResultAssembly.ResultForm | include/__mping/result.hpp:1061-1107 | the result comes without a wrapper if and only if it is one send or receive buffer, and is void if and only if a call with a receive buffer hands nothing back |
| ResultAssembly.SendBufferIsNotReturned | include/__mping/result.hpp:1061-1063 | a call that has a receive buffer and is asked for its send buffer does not compile |
| ResultAssembly.SendBufOutOnCollective | include/__mping/result.hpp:1061-1063 | such a call: send_buf_out on a collective that allocates its receive buffer |
| ResultAssembly.FilterOutIff | include/__mping/named_parameter_filtering.hpp:45-78 | the filter keeps exactly the requested types, once each |
| ResultAssembly.FilterOutKeepsOrder | include/__mping/named_parameter_filtering.hpp:64-78 | in the order of the arguments |
| ResultAssembly.TupleSelects | include/__mping/named_parameter_filtering.hpp:111-137 | one existing buffer per type, in the order of the types, and never a missing one if all are supplied |
| ResultAssembly.SelectBufferFinds | include/__mping/named_parameter_selection.hpp:150-155 | a buffer of the requested type is found if and only if there is one |
| ResultAssembly.ReceiveBufferIff | include/__mping/result.hpp:1005-1012 | the receive buffer that is looked at is the only one that can be unnamed and owning |

## Left out

- The communicator plugin behind `comm.sort` (plugin/sort.hpp), utils/flatten.hpp, and the send and receive wrappers are not part of this model; a sort is any function that meets the contract.
- Random sampling: samples are arbitrary values. Floating-point logarithms: exact integer functions.
- Assertions and exceptions: an assertion is a precondition; the throwing root check is a refusal that changes nothing.
- User-given MPI datatypes and resize policies of the collectives: receive buffers have the required size.
- The buffers of pending `isend` calls in the suffix sorter: the exchange is one step.
- Element types narrower than `int` (8 and 16 bit indices), whose arithmetic C++ promotes.
- Bytes of value 0 in the text, which the code also uses as padding, and texts of 2^w symbols or more.
- PrefixDoubling.DoublePrefixes: ends with `EmptyRank` where the program reads the first element of an empty vector; nothing is said about what follows.
- SampleSort.Sort: requires that the amounts each rank sends and receives fit `int`; the code casts without a check.
- TestCollection.ReceiveResults: an empty string is received as zero characters; the code takes the address of the first element of an empty vector. Formatting and printing of the results is not modelled.
- TestCollection.NoDeadlock: takes the gather of the counts as a step of its own per rank, with its own channel, as collectives do not interfere with messages.
- Ownership.Communicator.Copy: requires a usable handle; copying a wrapper that was moved from, or that borrows a freed handle, is an MPI error.
- The setter of the default tag, groups, comparison and creation of subcommunicators from groups; `Group` tracks no ownership.
- ResultAssembly.MakeMpiResult: without serialization buffers, so the two filters of the code are one.
- NonBlockingResult, requests and statuses, timers, printers, data buffers, the grid, sparse and dispatch plugins, fault tolerance, MPI error codes.
