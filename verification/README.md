# A verified model of the term engine, its authenticated trie and its coins

The project models the parts of the system that carry its weight, and proves what they are for:

- **Unification** of possibly cyclic terms on a heap of tagged cells (`TermEnvironment`, with `Cells`,
  `RationalTrees` and `Forwarding`): an explicit stack, functor cells overwritten by FWD cells to form a
  union-find forest and restored in reverse order, a trail tidied against a choice point register.  Terms are
  read as rational trees; solvability is the existence of a congruence on terms without functor clash.
  `ChoicePoints` adds runs with choice points inside choice points.
- **Copying** of possibly cyclic terms (`TermCopy`, with `CopyGraph` and `GraphWalk`): a depth-first walk with
  an explicit stack that puts off the arguments that lead back to a structure being copied, and patches them.
- **Serialization** (`TermWriter` and `TermReader`, with `SerialForm` for what is written and `StringChunks` for
  names, `IntegrityCheck` for the check of what was read, and `SerialRoundTrip`): terms with sharing and cycles
  written after a header of names, read from any buffer into an environment with other atoms and a heap of its own.
- **Garbage collection** of whole heap blocks (`GarbageCollector`, with `HeapMoves`): marking, block deltas,
  pointers and roots rewritten in place, blocks squeezed together.
- **The Merkle trie** (`MerkleTrie` and `TrieIterator` on node objects, `RadixTree`, `TrieLaws` and `TrieBinding` on values,
  `Packing` and `Bits` for child arrays packed by a mask word): insert, find, remove, cached hashes, iterators.
- **AES-256-CBC** (`Aes256`, with `AesField`, `AesCipher`, `CipherChaining` and the
  example of the standard in `AesExample`) and **BLAKE2b** (`Blake2b`) as they
  are used on data that arrives in pieces.
- **Coins** (`Rewards`, `Coins`, `CoinRuns`): the reward schedule, the join, split and move of coins, and runs of
  them.

Code that works by changing things in place is a class with those fields (the term environment, the copier, the
serializer, heap blocks and the collector, trie nodes and iterators, the AES object, the hash state, the coin ledger), and each of
its methods is proved against a specification given by functions and predicates on values; lemmas about those say
what the code is for.  Every lemma says itself where it uses induction.

Four properties one might expect of the code fail, and the project shows where:

- A split of a coin whose value is negative does not conserve value: the second loop stops at once and the coin
  is gone (`CoinRuns.DebtVanishes`, a run that makes such a coin by splitting with a negative piece).
  `CoinRuns.ConservedExactly` says that value is conserved over a run if and only if no such coin is split.
- After a collection the size of the heap is wrong when the last block is dropped and the new last block is not
  filled equally far (`GarbageCollector.SizeLost`), and when no block is kept the head is a block that is gone
  (`GarbageCollector.HeadLost`); `DoCollection` says that the collector is consistent afterwards if and only if there
  were no blocks at all, or one is kept and the last kept one was filled as far as the last of all.
- Going back from the end of a trie, an iterator starts at slot 0 of the root: it finds the greatest key if and only if
  no other slot is in use (`TrieIterator.FromFirstSlot` and `TrieIterator.Iterator.Previous`).

- A name that is empty or has a character outside 1 to 127 is written but not read back: `SerialRoundTrip.HeaderParsed`
  says that the header is read as it was written if and only if no name is of that kind, `StringChunks.ReadBack` what
  becomes of one that is, and `StringChunks.NotReadBack` has two such names.

Where documentation and code differ, the model follows the code: README.md:133-134 puts the last reward in block
3,500,000, but `reward(3500000)` is 0 and the last reward that is not 0 is that of block 3,499,999.  The second of
two identical checks in src/common/term_env.cpp:364-369 tests the first functor again instead of the second; on
well-formed heaps neither fires.

## Model

| member | source | states |
|---|---|---|
| TermEnvironment.TermEnv.Unify | src/common/term_env.cpp:233-261 | terminates on every well-formed heap, cyclic ones included; succeeds if and only if the equation has a solution over rational trees, then with a unifier every solution contains and with exactly the bindings below the choice point on the trail; two bignums if and only if headers and all cells with bits of them are equal; on failure heap, trail, stack and register are as before |
| TermEnvironment.TermEnv.UnifyHelper | src/common/term_env.cpp:272-429 | ends with no functor cell forwarded; success means one tree for both terms and every congruence with the equation still holds, failure that none exists; the trail lists each new binding once |
| TermEnvironment.TermEnv.UnifyNext | src/common/term_env.cpp:280-423 | one round keeps the invariant on bindings, forwarded functors and pending pairs and goes down in the measure of unbound variables and functors not forwarded, or refutes the equation |
| TermEnvironment.TermEnv.RestoreCellsAfterUnify | src/common/term_env.cpp:263-270 | following each FWD cell in reverse order puts every functor back, so the heap is the one with bindings only |
| TermEnvironment.TermEnv.TidyTrail | src/common/term_env.hpp:393-412 | the trail before the given place is untouched, and after it has every entry below the choice point as often as before and nothing else |
| TermEnvironment.TermEnv.UnwindTrail | src/common/term_env.hpp:612-618 | unbinds exactly the variables of that part of the trail |
| TermEnvironment.TermEnv.Deref | src/common/term.cpp:482-494 | ends, at the end of the chain of REF cells |
| TermEnvironment.TermEnv.NewStr | src/common/term.hpp:1291-1304 | a new structure, pointer, functor and fresh unbound arguments in one block of 8192 cells, and everything older as it was |
| Cells.AllocateExact | src/common/term.hpp:1644-1677 | cells are allocated behind those in use when they fit into the block, and only else at the beginning of the next one |
| TermEnvironment.TermEnv.SaveState | src/common/term_env.hpp:849-851 | records how long trail and stack are, and the register |
| TermEnvironment.TermEnv.RestoreState | src/common/term_env.hpp:853-858 | unbinds what was bound since, cuts trail and stack back, restores the register and leaves the environment well formed |
| TermEnvironment.UnifierIsMostGeneral | src/common/term_env.cpp:298-326 | whatever other bindings make the two terms one tree, they also equate each variable with what unification bound it to |
| TermEnvironment.NotUnifiableNoInstance | src/common/term_env.cpp:328-380 | when unification fails no bindings, to old or to new terms, make the two terms one tree |
| TermEnvironment.BacktrackingRestores | src/common/term_env.hpp:849-858 | over every run of unifications and allocations under one choice point, undoing the trail gives every older cell its value back |
| ChoicePoints.NestedBacktracking | src/common/term_env.hpp:849-858 | however deeply choice points are nested, going back to one gives the environment as it was when it was opened, up to cells allocated since |
| ChoicePoints.CanGoBack | src/common/term_env.hpp:612-618 | the trail never becomes shorter than at a choice point that is still open |
| RationalTrees.BisimilarUnfold | src/common/term_env.cpp:382-391 | terms related by a bisimulation denote the same rational tree, the reason why assuming forwarded functors equal is sound |
| RationalTrees.NumbersUnifiable | src/common/term_env.cpp:403-420 | two bignums have a solution if and only if their headers and every cell with bits of them are equal |
| Cells.NumCellsLeast | src/common/term.hpp:693-710 | a bignum has as few cells as have room for its bits, 32 of them in the header and 64 in each further one |
| Forwarding.Done | src/common/term_env.cpp:280-429 | when no pair is pending, bindings and forwarded classes together are a bisimulation with the equation in it |
| TermCopy.Copier.Copy | src/common/term_env.cpp:566-734 | ends on cyclic terms; the result is a copy of everything reachable and of nothing else, one new structure or variable for each, arguments standing for arguments, back edges included; nothing old changes |
| TermCopy.Copier.CopyNext | src/common/term_env.cpp:581-717 | one round of the walk keeps stack, path, results and what is put off in step and gets nearer to the end |
| TermCopy.Copier.PatchCyclic | src/common/term_env.cpp:720-726 | each argument put off becomes the copy of the structure it led back to, and no other cell changes |
| CopyGraph.CopyTree | src/common/term_env.cpp:566-734 | the copy denotes the rational tree of the term with its variables renamed |
| CopyGraph.NumberCopied | src/common/term_env.cpp:698-718 | what stands for a bignum in the copy has the same header and the same cells with bits, and is a new one unless bignums are shared |
| TermWriter.Writer.Write | src/common/term_serializer.cpp:57-99 | ends on cyclic terms; the buffer has the header, then each structure and bignum once with arguments and payload behind it, and every word is that of the term it is for, at the place where that term is; every name, place and node is for something reached from the root |
| SerialForm.NodesAreParts | src/common/term_serializer.cpp:57-99 | the nodes of a finished buffer are the structures, variables and bignums reached from the root: all of them, and no others |
| TermWriter.AfterWriting | src/common/term_serializer.cpp:69-98 | writing one more term keeps all that is written right: every place is filled or waits on the stack with its term |
| TermWriter.Writer.WriteAllHeader | src/common/term_serializer.cpp:112-157 | gives every indirect atom and named variable met exactly one entry with its name, and looks at every argument of every structure it meets |
| TermWriter.Writer.WriteStrCell | src/common/term_serializer.cpp:159-179 | a structure met again becomes a pointer to where it is; one met first is put at the end with its functor and room for its arguments, which wait with their places |
| TermWriter.Writer.WriteBigCell | src/common/term_serializer.cpp:181-206 | a bignum met again becomes a pointer to where it is; one met first is put at the end, header and every cell with bits of it |
| SerialForm.NumberPlaced | src/common/term_serializer.cpp:181-206 | in the buffer every bignum has its header and every cell with bits of it |
| SerialForm.IndexKeys | src/common/term.hpp:463-488 | two functors share an entry if and only if they have one atom and their arities differ in the low five bits only; the four constants of the format differ |
| StringChunks.ReadBack | src/common/term.cpp:167-235 | a text that is not empty is read back exactly if all its characters are from 1 to 127; otherwise reading fails or gives a shorter text |
| StringChunks.NotReadBack | src/common/term.cpp:167-235 | two concrete names that are written and not read back: one is refused, one comes back shorter |
| StringChunks.EightLetters | src/common/term.cpp:215-235 | eight letters become two integers, given as numbers |
| StringChunks.CharacterBounds | src/common/term.cpp:167-186 | characters 1 and 127 are read back and 128 is not |
| StringChunks.IsCharChunk | src/common/term.cpp:167-186 | whether an integer is such a cell, for every integer |
| StringChunks.ChunkExactly | src/common/term.cpp:167-186 | such a cell has 0 or 1 in its low five bits, and above them characters from 1 to 127 up to the first zero byte |
| StringChunks.MeaningExactly | src/common/term.cpp:189-206 | the text of such a cell is those characters in order |
| TermReader.Reader.Read | src/common/term_serializer.cpp:213-391 | for every buffer: what is read is behind the old heap, each word where it belongs with pointers and atoms translated, every cell accepted; otherwise the first word that is refused and why |
| TermReader.Reader.ReadAllHeader | src/common/term_serializer.cpp:393-481 | resolves the names of the header in their order, or refuses a malformed one |
| TermReader.Reader.PatchPointers | src/common/term_serializer.cpp:374-387 | every pointer into the body leads to where its target went |
| TermReader.PlacesInOrder | src/common/term_serializer.cpp:280-372 | later words go to later places, so no two go to one |
| TermReader.RefusedExactly | src/common/term_serializer.cpp:299-361 | which words are refused and why: atoms and pointers into the header without an entry, bignums without bits or with more than there are words for, forwarded cells |
| TermReader.NumberRead | src/common/term_serializer.cpp:348-360 | a bignum that was read has all its cells, none of them taken for a cell of its own |
| IntegrityCheck.Checker.Check | src/common/term_serializer.cpp:641-674 | accepts exactly the heaps whose used cells are all fine, and otherwise names the first that is not and what is wrong with it |
| IntegrityCheck.Checker.CheckRefChain | src/common/term_serializer.cpp:617-639 | tells chains that end from those that leave the new part and those that run in a circle; stopping at cells checked before never hides a circle |
| IntegrityCheck.AcceptedSafe | src/common/term_serializer.cpp:524-639 | in an accepted heap every chain of REF cells is a path inside it that ends, a bignum leads to its header, and a structure to a functor with all its arguments, none of them payload, forwarded or a functor with arguments |
| IntegrityCheck.SoundAccepted | src/common/term_serializer.cpp:524-639 | nothing sound is refused: chains that end, bignums with their header, structures whose arguments are variables, numbers, structures, bignums and atoms |
| SerialRoundTrip.WriteAndRead | src/common/term_serializer.cpp:57-391 | reading what was written succeeds exactly when the bignums in it have bits, and gives the same graph with the same names, cycles and sharing included, of all that is reached from the root and nothing else, disjoint from the old heap |
| SerialRoundTrip.HeaderParsed | src/common/term_serializer.cpp:112-157 | the header is read back as it was written if and only if its names can be read back |
| SerialRoundTrip.NodesApart | src/common/term_serializer.cpp:245-391 | different structures, variables and bignums stay different |
| SerialRoundTrip.CellFine | src/common/term_serializer.cpp:483-674 | the check finds no fault with what was written |
| GarbageCollector.Collector.Mark | src/common/garbage_collector.cpp:42-72 | marks exactly the cells reachable from the roots, keeps every block a bignum spans and no block without need |
| GarbageCollector.Collector.CalculateDeltas | src/common/garbage_collector.cpp:102-115 | the delta of a kept block is the number of cells in dropped blocks below it |
| GarbageCollector.Collector.RewriteBlocks | src/common/garbage_collector.cpp:148-162 | every marked pointer leads to where its target will be, and no other cell changes |
| GarbageCollector.Collector.CleanupBlocks | src/common/garbage_collector.cpp:176-202 | the kept blocks remain, in order and renumbered, the last of them is the head, and the size is less by the dropped blocks |
| GarbageCollector.Collector.DoCollection | src/common/garbage_collector.cpp:210-237 | the collected heap with the moved roots is the same graph, payloads together; the count is that of the blocks dropped; the collector is consistent if and only if there were no blocks, or one is kept and the last kept one was filled as far as the last of all |
| GarbageCollector.CompactedSame | src/common/garbage_collector.cpp:148-202 | cell by cell: pointers point at the same, functors have their arguments behind them, bignums all their bits, constants are as they were, and no two cells become one |
| GarbageCollector.SizeLost | src/common/garbage_collector.cpp:197-198 | a concrete collection after which the size is less than what is in use |
| GarbageCollector.HeadLost | src/common/garbage_collector.cpp:176-202 | a concrete collection that keeps no block and leaves a deleted one as the head, although the size is right |
| HeapMoves.ReachableMoved | src/common/garbage_collector.cpp:117-162 | from the moved roots exactly the moved cells are reachable |
| HeapMoves.MovedOrder | src/common/garbage_collector.cpp:117-122 | moving keeps the order of live cells, so no two go to one place |
| HeapMoves.MovedInjective | src/common/garbage_collector.cpp:117-122 | no two cells of kept blocks are moved to one place |
| HeapMoves.MovedPlace | src/common/garbage_collector.cpp:117-122 | a cell keeps its place in its block |
| MerkleTrie.InsertPart | src/common/merkle_trie.hpp:172-205 | the node objects stand for the tree with the key inserted if absent, cached hashes stay right when rehashing is on, no node is shared |
| MerkleTrie.FindPart | src/common/merkle_trie.hpp:207-223 | finds the value stored for the key, or that there is none |
| MerkleTrie.RemovePart | src/common/merkle_trie.hpp:225-274 | the node objects stand for the tree with the key removed, single leaves pulled up and empty nodes gone |
| MerkleTrie.ReallocateInsert | src/common/merkle_trie.hpp:315-327 | a new slot in the packed array, every child still in its own slot |
| MerkleTrie.ReallocateRemove | src/common/merkle_trie.hpp:329-341 | the slot is gone from the packed array, every other child still in its own slot |
| MerkleTrie.RehashNode | src/common/merkle_trie.hpp:156-170 | makes every cached hash below what it ought to be |
| MerkleTrie.Trie.Insert | src/common/merkle_trie.hpp:701-707 | the trie holds the old map, with the key added only if it was absent, in canonical shape |
| MerkleTrie.Trie.Remove | src/common/merkle_trie.hpp:718-726 | the trie holds the old map without the key, in canonical shape |
| MerkleTrie.Trie.Hash | src/common/merkle_trie.hpp:732-735 | the root hash is the hash of the canonical tree of the current map, whether maintained step by step or recomputed |
| TrieBinding.RootHashBinds | src/common/merkle_trie.hpp:381-398 | two tries of one height have one root hash if and only if they hold the same keys and values, or else two inputs with one hash or an input with the hash of the empty trie are exhibited; that of an empty trie is zero |
| TrieBinding.HashedInOrder | src/common/merkle_trie.hpp:381-398 | a branch hashes the key and value of each leaf and the hash of each branch among its children, in the order of their keys |
| TrieBinding.HashOfOne | src/common/merkle_trie.hpp:40-43 | a trie of one key hashes that key and its value |
| MerkleTrie.Trie.RehashAll | src/common/merkle_trie.hpp:757-761 | makes the root hash right again without changing what is stored |
| RadixTree.CanonicalUnique | src/common/merkle_trie.hpp:172-274 | two canonical trees that find the same values are the same tree |
| RadixTree.SubIndexIsShift | src/common/merkle_trie.hpp:546-548 | the digits of a key by division are those the code takes by shifts and a mask |
| TrieLaws.ApplyRefines | src/common/merkle_trie.hpp:172-274 | insert and remove refine the finite map and keep the canonical shape |
| TrieLaws.HistoryIndependence | src/common/merkle_trie.hpp:381-398 | two histories with the same final map end with the same tree and the same root hash |
| TrieLaws.BranchIffShared | src/common/merkle_trie.hpp:188-263 | below the root there is a branch for a prefix if and only if at least two stored keys share it |
| Packing.InsertAt | src/common/merkle_trie.hpp:343-345 | the index of a child is the number of mask bits below its slot, before and after a slot is added |
| Packing.RankCounts | src/common/merkle_trie.hpp:343-345 | the index of a child is the number of slots in use below its own |
| TrieIterator.Iterator.StartFromKey | src/common/merkle_trie.hpp:550-599 | lands on the least stored key that is not below the given one, or at the end |
| TrieIterator.Iterator.Next | src/common/merkle_trie.hpp:601-616 | lands on the successor of the current key, or at the end |
| TrieIterator.Iterator.Previous | src/common/merkle_trie.hpp:618-640 | lands on the predecessor of the current key, or at the end; from the end on the greatest key below slot 0 of the root, which is the greatest of all if and only if no other slot is in use |
| TrieIterator.FromFirstSlot | src/common/merkle_trie.hpp:619-623 | the greatest key below the first slot is the greatest of all if and only if the other slots are empty |
| TrieIterator.Iterator.Erase | src/common/merkle_trie.hpp:776-783 | removes the current key and lands on its successor |
| TrieIterator.Iterator.Begin | src/common/merkle_trie.hpp:434-438 | lands on the least key when the first slot of the root is in use or the trie is empty |
| TrieIterator.Enumerates | src/common/merkle_trie.hpp:601-616 | going from each key to the next visits exactly the stored keys from the start on, each once, in increasing order |
| TrieIterator.EnumeratesBackwards | src/common/merkle_trie.hpp:618-640 | going back visits exactly the stored keys below the start, each once, in decreasing order |
| Bits.LsbExact | src/common/bits.hpp:36-38 | for every non-zero word the table look-up gives the lowest set bit |
| Bits.BitrevExact | src/common/bits.hpp:66-71 | bit j of the reversed word is bit 31 - j of the word |
| Bits.MsbExact | src/common/bits.hpp:80-82 | for every non-zero word the result is the highest set bit |
| Bits.NextSlotIsLsb | src/common/merkle_trie.hpp:604-614 | masking out the slots up to i and scanning gives the next slot in use |
| Bits.PreviousSlotIsMsb | src/common/merkle_trie.hpp:626-638 | masking out the slots from i on and scanning backwards gives the previous slot in use |
| Bits.EndSlots | src/common/merkle_trie.hpp:504-544 | the two scans of a mask word give its first and its last slot in use |
| AesField.SboxRoundTrip | src/common/aes256.cpp:5-41 | the inverse table undoes the table |
| AesField.RsboxRoundTrip | src/common/aes256.cpp:5-41 | the table undoes the inverse table |
| AesField.SboxMeaning | src/common/aes256.cpp:5-22 | each entry is the affine image of the inverse in GF(2^8), section 5.1.1 of FIPS 197 |
| AesField.MultiplyExact | src/common/aes256.hpp:212-218 | shifts and sums give the product in GF(2^8) for the four factors used |
| AesField.InvMixRoundTrip | src/common/aes256.hpp:188-233 | the inverse mixing of columns undoes the mixing |
| AesField.MixRoundTrip | src/common/aes256.hpp:188-233 | the mixing of columns undoes the inverse mixing |
| AesCipher.CipherUndone | src/common/aes256.hpp:270-306 | the inverse cipher of section 5.3 of FIPS 197 undoes the cipher of section 5.1, for every expanded key |
| AesCipher.CipherRedone | src/common/aes256.hpp:270-306 | the cipher undoes the inverse cipher, for every expanded key |
| AesCipher.RoundIs | src/common/aes256.hpp:146-210 | a round on bytes: each looked up, row r taken from the column r further on, each twice itself, three times the next and the other two, the key added |
| AesCipher.LastRoundIs | src/common/aes256.hpp:282-284 | the last round on bytes, which does not mix |
| Aes256.Aes256.KeyExpansion | src/common/aes256.hpp:72-135 | byte by byte the expanded key of section 5.2 of FIPS 197 |
| Aes256.AllBytesExpanded | src/common/aes256.hpp:72-135 | every byte from the word eight before and the last one, turned to the left, looked up and with a power of x every eighth word, and looked up half-way between |
| AesExample.Example | src/common/aes256.hpp:72-306 | key, block and encrypted block of appendix C.3 of FIPS 197 |
| Aes256.Aes256.EncryptBlock | src/common/aes256.hpp:270-287 | the rounds done in place give the cipher of section 5.1 of FIPS 197 |
| Aes256.Aes256.DecryptBlock | src/common/aes256.hpp:289-306 | the rounds done in place give the inverse cipher of section 5.3 |
| Aes256.Aes256.CbcEncrypt | src/common/aes256.hpp:33-41 | the buffer becomes the chained encryption of section 6.2 of NIST SP 800-38A, the vector its last block |
| Aes256.Aes256.CbcDecrypt | src/common/aes256.hpp:47-55 | the buffer becomes the chained decryption, the vector the last encrypted block |
| Aes256.CbcRoundTrip | src/common/aes256.hpp:33-55 | decryption from the same vector gives the text back, and both sides go on with the same vector |
| Aes256.CbcInParts | src/common/aes256.hpp:33-41 | cutting a text at block boundaries and encrypting the parts one after the other gives the same bytes and vector |
| Blake2b.State.Update | src/common/blake2.cpp:383-408 | whatever is given in one call, the state stands for the whole text so far, the last block withheld and the counter equal to the bytes compressed modulo 2^128 |
| Blake2b.State.Final | src/common/blake2.cpp:410-433 | gives the digest of section 3.3 of RFC 7693 of the whole text, byte j of each word of the last chaining value at its place, low byte first; a second call or a short buffer is refused |
| Blake2b.State.InitKey | src/common/blake2.cpp:282-313 | starts with the key padded to one block as first text |
| Blake2b.Blake2b | src/common/blake2.cpp:435-462 | the one-shot function gives that digest, or refuses the lengths the code refuses |
| Blake2b.HashInPieces | src/common/blake2.cpp:383-433 | for every way of cutting a text into pieces, empty ones included, the digest is that of the whole |
| Blake2b.DigestSpelled | src/common/blake2.cpp:383-433 | that digest without functions of the model: blocks of 128 bytes, counters, final flag, starting value and byte order |
| Blake2b.StoredBytes | src/common/blake2.cpp:110-125 | byte j of word i, of weight 256 to the j, is byte 8 * i + j |
| ByteTables.Pow256Values | src/common/blake2.cpp:110-125 | those weights as numbers |
| Blake2b.RootFractions | src/common/blake2.cpp:185-191 | the words of IV are the leading bits of the fractions of the square roots of the first eight primes |
| Blake2b.CounterStep | src/common/blake2.cpp:228-232 | two words with carry count modulo 2^128 |
| Rewards.Reward | src/coin/builtins.cpp:10-18 | the reward of a block above the genesis block times the power of two of its epoch does not exceed the first reward, and one more would |
| Rewards.RewardHalves | README.md:128-134 | one hundred thousand blocks later the reward is half as much, rounded down |
| Rewards.SupplyExact | src/coin/builtins.cpp:10-18 | the sum of all rewards never exceeds 4242424242424242 and is equal to it exactly from block 3499999 on, for all heights whose shift is defined |
| Rewards.RewardEnds | README.md:128-134 | rewards are positive before block 3500000 and 0 from there on |
| Rewards.ClaimedSupply | src/coin/builtins.cpp:20-31 | whichever heights are claimed, once each, no more than the supply is minted |
| Coins.Ledger.CJoin | src/coin/builtins.cpp:44-83 | exactly when every element is an unspent coin of one functor, none twice, the coins become spent and one coin with their sum is made; else the first offence decides, and nothing changes |
| Coins.Ledger.CSplit | src/coin/builtins.cpp:85-151 | the exact conditions of success, the coin spent and the pieces made |
| Coins.Ledger.CMove | src/coin/builtins.cpp:153-167 | an unspent coin becomes spent and a copy of it unspent |
| Coins.Ledger.Call | src/coin/builtins.cpp:20-167 | any of the four operations, with what a failed one has spent taken back |
| Coins.PiecesSum | src/coin/builtins.cpp:123-146 | although the second loop may stop early, for a coin of non-negative value the pieces sum up to it |
| Coins.PiecesShape | src/coin/builtins.cpp:120-146 | the coins made are the values up to the first place where their sum reaches the amount and nothing else, or all values and what remains |
| Coins.SplitConserves | src/coin/builtins.cpp:101-146 | a split conserves value if and only if the coin is not negative |
| CoinRuns.ConservedExactly | src/coin/builtins.cpp:20-167 | over every run, unspent value equals what was there plus what was minted if and only if no negative coin was split |
| CoinRuns.Conserved | src/coin/builtins.cpp:20-167 | value is conserved for every coin functor when no piece is negative |
| CoinRuns.DebtVanishes | src/coin/builtins.cpp:123-146 | a concrete run in which it is not |
| CoinRuns.NoDoubleSpend | src/coin/coin.hpp:28-37 | in no run is a coin spent twice, within one list or at two times |
| CoinRuns.SupplyKept | src/coin/builtins.cpp:10-31 | in every run with each height rewarded once, no more than the supply is ever unspent |

## Left out

- Parser, emitter, tokenizer, interpreter and the programs around them are not part of this model; the rollback of a failed coin operation is taken as given.
- Arithmetic on bignums and their conversion: payload cells are opaque, and bignums are equal when their payload cells are, unused bits of the last one included.
- Watched variables, the accounting of costs, names of atoms and variables, coin security checks.
- Orders and hashes of terms, and the cost function: they would repeat the walk of unification without its union-find.
- SerialRoundTrip.WriteAndRead: says nothing when the buffer or the atom table has more entries than a field of 47 bits numbers; names are in `HeaderParsed`.
- TermWriter.Writer.Write: words are cells, not eight bytes each in little-endian order; the buffer is empty at first; hashing what is written is not part of this model, nor are watched variables.
- TermReader.Reader.Read: RFW words do not occur; a FWD word, which the code treats as if it had been put in cell 0, is refused; so is an empty body, for which the code returns the first cell of the heap; unexpected data and an unexpected end are one error.
- Hash compression: BLAKE2b is proved for every compression function; the other hashes are not part of this model, nor are null pointers.
- TermEnvironment.TermEnv.Unify: the heap is one sequence of cells, in which blocks show only as padding; addresses are unbounded.
- TermCopy.Copier.Copy: within one environment, names not copied; the walk starts with an empty stack; each bignum met is copied anew, so sharing of bignums is not kept, as in the code.  Leaves are not put on the path and taken off again.
- GarbageCollector.Collector.DoCollection: asks for distinct root objects, for a heap that can be walked from the roots, and that no bignum ends with the very last cell of the last block, where the code would look at a block that is not there.
- TrieIterator.Iterator.Begin: does not say where it goes when the first slot of the root is empty, because the code then reads the child of an empty slot.
- TrieIterator.Iterator.Previous: from the end, the same.
- MerkleTrie.Trie.Insert: keys below 2^L with L a multiple of 5, for which the shifts of the code are defined; levels are counted from the leaves; what is hashed are keys with values and hashes, not their bytes, so that items of different kinds with the same bytes do not occur; mask words are sets of slots, which the lemmas of `Bits` tie to words; freed nodes stay in the ghost footprint.
- Bits.LsbExact: words of 32 bits, those the trie uses; the scans of 64-bit words are not part of this model.
- Aes256.Aes256.CbcEncrypt: buffers of whole blocks, as the code assumes.
- Rewards.SupplyExact: heights below 6400000; above, the shift of the code is not defined.
- Coins.Ledger.CJoin: the list is not empty (the code then sets the first argument of a structure that has none); integers are unbounded.
- Coins.Ledger.CSplit: the output is a fresh variable, so unifying it succeeds.
