# A verified model of libcoin's core data structures

libcoin keeps the set of unspent outputs in an authenticated Patricia trie that is copied for free and
cloned only where it is changed, does its arithmetic on rows of machine words and on big numbers with
several byte and text forms, reads scripts byte by byte, and keeps the block chain in a tree with a long
trunk and few branches. This project models these parts in Dafny and proves what they are relied on for.

Check it with `dafny verify dfyconfig.toml`, or all files together with
`dafny verify --resource-limit 2000000 --verification-time-limit 0 *.dfy`.

## What is modelled

* **The trie as a value** (`Keys`, `Tries`, `Canonical`, `Proofs`, `Serial`, `Preimages`, `Absence`,
  `Forgeries`, `Deceptions`): search, insertion and removal on an immutable tree; the Patricia invariant;
  one shape and one root hash per element set; membership proofs with a constructive soundness result, for
  any hash functions and for digests of the serialized bytes; absence proofs, on branches read off the trie
  and on branches made by somebody else.
* **The trie in memory** (`CopyOnWrite`, `Snapshots`, `Certificates`, `Gaps`): nodes, intrusive reference
  counts, counting pointers, cloning along a search path, incremental hashing, cascading deletion, and runs of
  operations over any number of tries that share nodes. The value level is its specification.
* **Words and numbers** (`Words`, `WordBytes`, `KeyWords`, `Limbs`, `Hex`, `Octets`, `Bytes`, `Mpi`,
  `Compact`, `BigNums`): the word loop behind key comparison, fixed-width integers of any width updated in
  place, and big numbers with their MPI, byte string, text and compact forms.
* **Scripts** (`Scripts`): writing, reading, counting and deleting instructions.
* **The block tree** (`BlockTrees`, `Targets`, `Retarget`): signed heights, stepping, comparing, work,
  reorganisation, and the example chain's retarget rule.
* **Small rules** (`Names`, `Claims`): Namecoin's fee and expiry curves, and the order of claims.

Facts the model takes from the code where its comments say or suggest otherwise:

* The left child of a branch holds the larger keys (include/coinChain/MerkleTrie.h:586-600 together with
  include/coinChain/Spendables.h:104-107); the comment at include/coinChain/MerkleTrie.h:372 says the
  opposite.
* A branch keeps the key of what was its right child when it was built. After removals the key need not be
  stored any more; only the bits above the depth are still right, and the proofs need no more than that.
* The second scan of `consecutive` stops at the length of the lower branch
  (include/coinChain/MerkleTrie.h:191). For branches read off the trie, `Absence.CodedTestAndAdjacency`
  gives the exact condition under which the test is still right, `Absence.ShortLowerBranchMisleads` an
  input on which it is not.
* Neither `validate` nor `consecutive` looks at the shape of a branch. Entries in front of its siblings are
  skipped by the one and compared by the other, so any two leaves have branches that validate and pass even
  the full test (`Forgeries.ForgedPairPasses`). In front of the siblings of the trie's own leaves, the full
  test is right exactly when the two branches have the same there (`Forgeries.HeadsDecide`), as two branches
  with nothing but the root entry do. Behind that may stand siblings of no leaf: see the next fact.
* The hash of a leaf covers only the Coin and the output, not the keeper's notes beside them, and leaves
  and pairs are hashed by the same function (include/coinChain/Spendables.h:112-123). An output with a
  script of 19 bytes is as long as a pair of hashes, and may be one (`Preimages.DisguisePasses`); where no
  script has 19 bytes, membership proofs are exact (`Preimages.MembershipExact`, `Preimages.SoundExactly`).
  The same goes for the test for neighbours: with such a script, two branches of the right shape make a
  stored key look absent (`Deceptions.WellShapedMislead`), and the test can be trusted on branches from
  somebody else exactly where no script has 19 bytes (`Deceptions.DecidesExactly`).
* Stepping back below the root leaves a trunk iterator where it is and a branch iterator at the trunk block
  its branch hangs on (include/coinChain/BlockTree.h:224-243); a trunk block compares as below itself
  (include/coinChain/BlockTree.h:92-99).
* `findAndDelete` is a filter exactly for patterns that are one complete instruction
  (`Scripts.FilterExactly`). Deleting twice is deleting once exactly for patterns that are one instruction
  over and over with at most a beginning of it behind, or unreadable (`Scripts.IdempotentExactly`); for
  others it may delete more (`Scripts.PairsAreNotIdempotent`).
* The size of a byte string reaches OpenSSL as an `int`: strings of 2 to the 31 less 4 bytes or more are not
  read, and of those of 2 to the 32 bytes or more only a part (`BigNums.BigNum.SetVch`).
* With the sign bit of the compact form's `int` set, `SetCompact` asks for a buffer of about four gigabytes
  and fills in a length that does not fit it, so the number stays as it was.

How the machine is modelled: integer widths are written out (wrap-around, truncating shifts, narrowing to
`int`). A left shift by s bits is `Doubled`, a right shift `Halved`, a shift by whole words `Lift`;
`DoubledIsProduct` and `HalvedIsQuotient` tie them to multiplication and division. Hash functions are
parameters of every statement about hashes. A reference count is the number of pointers the ghost field
`holders` lists; `Heap.Structure` says that these are exactly the live pointers. OpenSSL's big number
routines are integer operations, and its MPI format is its definition: four bytes of length, the shortest
big-endian magnitude, the sign in the top bit.

## Model

| member | source | states |
|---|---|---|
| Keys.TopIsSharedPrefix | include/coinChain/Spendables.h:91-110 | the distance of two keys is at most d exactly when they share every bit above position d |
| Keys.TopUltrametric | include/coinChain/Spendables.h:91-110 | of the three distances between three keys the two largest are equal |
| Keys.TopSplits | include/coinChain/MerkleTrie.h:338-345 | two keys at distance d split all keys within d: each is strictly closer to exactly one of them, and on its side of the other |
| Tries.StaleKeyStillGuides | include/coinChain/MerkleTrie.h:104-105 | a branch's possibly stale key accepts exactly the keys that both its children's keys would |
| Tries.BranchSplits | include/coinChain/MerkleTrie.h:338-346 | a search at a branch can be accepted by at most one child, and exactly one child is strictly nearer than the depth |
| Tries.StoredIsAccepted | include/coinChain/MerkleTrie.h:338-346 | every node above a stored key accepts it |
| Tries.FindDecides | include/coinChain/MerkleTrie.h:525-533 | find returns a leaf exactly for stored keys, and the leaf stored under the key |
| Tries.InsertIsMapInsert | include/coinChain/MerkleTrie.h:550-614 | insert keeps the Patricia invariant, adds exactly one element, or refuses a taken key and changes nothing |
| Tries.ReplacementArmIsDead | include/coinChain/MerkleTrie.h:581-603 | where a search for an absent key stops, at the genitor or at a branch, neither child has that key: the arms that overwrite a leaf are never reached |
| Tries.RemoveIsMapRemove | include/coinChain/MerkleTrie.h:616-678 | remove keeps the Patricia invariant and deletes exactly one key, or reports that there was nothing to delete |
| Canonical.ContentsDetermineShape | include/coinChain/MerkleTrie.h:550-678 | valid tries with the same elements have the same shape up to stale key bits |
| Canonical.ReplayIsMapReplay | include/coinChain/MerkleTrie.h:550-678 | any history of inserts and removes leaves a valid trie that stores what a map would store |
| Canonical.SameContentsSameRootHash | include/coinChain/MerkleTrie.h:100-100 | equal contents give equal root hashes |
| Canonical.HistoryIndependence | include/coinChain/MerkleTrie.h:550-678 | two histories that leave the same elements leave the same root hash |
| Canonical.NoHashIsZero | include/coinChain/MerkleTrie.h:86-86 | an end node's hash is 32 zero bytes |
| Proofs.Branch.Validate | include/coinChain/MerkleTrie.h:144-161 | the validation loop decides whether the branch vouches for the leaf hash |
| Proofs.Branch.Consecutive | include/coinChain/MerkleTrie.h:167-199 | the two-scan loop decides the coded neighbour test, bounds and early exits included |
| Proofs.MembershipComplete | include/coinChain/MerkleTrie.h:284-300 | every stored element has a branch that vouches for its output against the root hash, and is judged to without a collision |
| Proofs.MembershipSound | include/coinChain/MerkleTrie.h:140-165 | whatever branch vouches for an output against a trie's root hash, either an element with that output is stored or a collision of the hash functions is computed from the branch |
| Proofs.VouchedIsBranch | include/coinChain/MerkleTrie.h:140-165 | a branch that vouches without a collision consists of exactly the siblings of a leaf with that output, behind entries that are not looked at |
| Serial.SerializedInjective | include/coinChain/Spendables.h:112-114 | outputs with the same serialized bytes are the same |
| Serial.LayoutIsExact | include/coinChain/Spendables.h:112-114 | the serialized bytes are exactly those with the coin in the first 36, the value in the next 8, both least significant byte first, and then the script with its length in front |
| Serial.ScriptLayout | src/coin/Serialization.cpp:34-58 | a script stands behind its length in one byte up to 252, and behind 253, 254 or 255 and two, four or eight bytes above |
| Preimages.HashedBytes | include/coinChain/Spendables.h:120-123 | the leaf hash is the digest of the bytes in that layout, the pair hash that of 64 bytes, the left hash first |
| Preimages.TrieHashBytes | include/coinChain/MerkleTrie.h:100-117 | a trie's hash is the digest of its output's coin, value and script, or of its two children's hashes, the left one first |
| Preimages.CollisionOfBytes | include/coin/util.h:487-535 | inputs with one hash are different bytes with one digest, or an output with a script of 19 bytes whose bytes are a pair of hashes |
| Preimages.MembershipExact | include/coinChain/MerkleTrie.h:140-165 | where no script has 19 bytes, some branch vouches for an output without a collision of the digest exactly when an element with it is stored |
| Preimages.DisguisePasses | include/coinChain/Spendables.h:120-123 | with a script of 19 bytes, whatever the digest, every output has a trie without it against whose root hash a branch vouches for it, no collision needed |
| Preimages.SoundExactly | include/coinChain/Spendables.h:120-123 | over all digests, tries and branches, vouching without a collision means membership exactly when scripts of 19 bytes are not allowed |
| Absence.FullTestIsAdjacency | include/coinChain/MerkleTrie.h:167-199 | for branches read off a trie, with the second scan run to the end of the upper branch, the test is exactly adjacency of the two leaves |
| Absence.CodedTestAndAdjacency | include/coinChain/MerkleTrie.h:191-196 | for branches read off a trie, as coded, adjacent leaves always pass, and a pass means adjacency exactly when the unchecked entries are all left ones; it is exact when the upper branch is no longer than the lower |
| Absence.ShortLowerBranchMisleads | include/coinChain/MerkleTrie.h:191-191 | a trie of four keys on which the coded test passes two leaves with a stored key between them |
| Forgeries.VouchedNeighbours | include/coinChain/MerkleTrie.h:140-199 | for any hash functions and any two branches that vouch for outputs, end in a leaf entry and have the same in front of their siblings, the full test is adjacency in the trie, or two inputs with one hash are computed |
| Forgeries.StoredNeighbours | include/coinChain/MerkleTrie.h:167-199 | the same for the test as coded: neighbours always pass, and a pass means adjacency exactly when the unchecked entries are all left ones |
| Forgeries.WellShapedNeighbours | include/coinChain/MerkleTrie.h:140-199 | branches of a root entry, siblings and a leaf entry are such branches |
| Forgeries.ForgedPairPasses | include/coinChain/MerkleTrie.h:140-199 | without that shape any two leaves, in any order, have branches that vouch for them and pass the full test |
| Forgeries.HeadsDecide | include/coinChain/MerkleTrie.h:167-199 | in front of the siblings of a trie's own leaves, of which there is more than one, the full test decides adjacency behind two heads exactly when they are the same |
| Deceptions.VouchedDecides | include/coinChain/MerkleTrie.h:140-199 | where no script has 19 bytes, of any two branches that vouch without a collision and have the same in front, both outputs are stored, the full test is adjacency, and the coded one is but for the entries it leaves unchecked |
| Deceptions.WellShapedMislead | include/coinChain/Spendables.h:120-123 | with a script of 19 bytes, whatever the digest, two branches of the right shape vouch without a collision and pass the full test although one output is not stored and a stored key may lie strictly between |
| Deceptions.DecidesExactly | include/coinChain/MerkleTrie.h:140-199 | over all digests, tries and vouching branches, with the same in front or of the right shape, the tests decide adjacency exactly when scripts of 19 bytes are not allowed |
| Absence.NearestAtBranch | include/coinChain/MerkleTrie.h:227-264 | for a search that stops at a branch, unary plus and minus return the immediate successor and predecessor exactly when the key lies between the branch's two sides |
| Absence.NearestAtGenitor | include/coinChain/MerkleTrie.h:227-264 | the same for a search that stops at the genitor: plus is the successor exactly when the key is below everything stored |
| Absence.NearestOfStored | include/coinChain/MerkleTrie.h:227-264 | plus and minus of a stored key are its own element |
| CopyOnWrite.Heap.Unref | include/coinChain/Referenced.h:76-85 | letting go of a pointer keeps every count equal to the number of pointers, and frees whatever nobody holds any more, children included |
| CopyOnWrite.Heap.Join | include/coinChain/ref_ptr.h:31-31 | a new node's pointers are counted by its children, and nothing else changes |
| CopyOnWrite.Heap.Repoint | include/coinChain/ref_ptr.h:47-57 | assigning a counting pointer counts the new target first and leaves only the old one to be discounted |
| CopyOnWrite.Heap.Clone | include/coinChain/MerkleTrie.h:89-90 | the copy of a branch node shares the original's children and has the same hash and meaning |
| CopyOnWrite.Heap.CloneChild | include/coinChain/MerkleTrie.h:569-578 | a shared child is replaced by a copy of its own; no node's meaning or hash changes |
| CopyOnWrite.MerkleTrie.constructor | include/coinChain/MerkleTrie.h:489-490 | a new trie is empty and leaves the heap in order |
| CopyOnWrite.MerkleTrie.Copy | include/coinChain/MerkleTrie.h:493-494 | a copy stands for what the original stands for, sharing its root |
| CopyOnWrite.MerkleTrie.Assign | include/coinChain/MerkleTrie.h:497-503 | assignment takes over the other trie's value, keeps all others, and frees what only the old value held |
| CopyOnWrite.MerkleTrie.Destroy | include/coinChain/ref_ptr.h:33-33 | a destroyed trie lets go of its nodes and leaves the heap in order |
| CopyOnWrite.MerkleTrie.FindPath | include/coinChain/MerkleTrie.h:525-533 | the path found in memory runs from the genitor along the value-level search, and ends in a leaf exactly when that succeeds |
| CopyOnWrite.MerkleTrie.OwnPath | include/coinChain/MerkleTrie.h:567-579 | after the cloning loop every node of the path is held by its predecessor alone, and nobody's value has changed |
| CopyOnWrite.MerkleTrie.Attach | include/coinChain/MerkleTrie.h:581-603 | hanging the new branch in place at the end of an owned path |
| CopyOnWrite.MerkleTrie.AttachedIsStale | include/coinChain/MerkleTrie.h:605-609 | after an insertion only the path's hashes are out of date |
| CopyOnWrite.MerkleTrie.RehashPath | include/coinChain/MerkleTrie.h:605-609 | rehashing the path from its end up makes every hash in the trie right again |
| CopyOnWrite.MerkleTrie.Insert | include/coinChain/MerkleTrie.h:550-614 | insert in memory refines insert on values, keeps the heap in order and every other trie's value |
| CopyOnWrite.MerkleTrie.Detach | include/coinChain/MerkleTrie.h:645-664 | the leaf's parent is shunted out in favour of the leaf's sibling |
| CopyOnWrite.MerkleTrie.DetachedIsStale | include/coinChain/MerkleTrie.h:670-675 | after a removal only the remaining path's hashes are out of date |
| CopyOnWrite.MerkleTrie.Remove | include/coinChain/MerkleTrie.h:616-678 | remove in memory refines remove on values, keeps the heap in order and every other trie's value |
| CopyOnWrite.MerkleTrie.HashVisit | include/coinChain/MerkleTrie.h:447-456 | hashing a subtrie, shared nodes included, changes no hash that was right already |
| CopyOnWrite.MerkleTrie.Authenticate | include/coinChain/MerkleTrie.h:684-699 | switching authentication on or off keeps every value, and leaves every authenticated trie hashed |
| CopyOnWrite.MerkleTrie.StoredHashIsFullHash | include/coinChain/MerkleTrie.h:97-100 | an up-to-date stored hash is the hash of the whole subtrie computed from scratch |
| CopyOnWrite.MerkleTrie.ReportedHash | include/coinChain/MerkleTrie.h:702-702 | an authenticated trie reports the full hash of its value |
| Snapshots.Run | include/coinChain/MerkleTrie.h:489-699 | after any sequence of create, copy, assign, insert, remove, authenticate and discard on any number of tries, each holds what a map of its own would hold, an authenticated one reports the hash of any trie with those contents, and no node outlives the last trie |
| Snapshots.RootHashOfContents | include/coinChain/MerkleTrie.h:684-702 | the reported hash depends on nothing but the contents |
| Snapshots.NothingLeaks | include/coinChain/Referenced.h:76-85 | when no trie is left every node has been freed |
| Certificates.BranchAlong | include/coinChain/MerkleTrie.h:284-300 | the branch read off the nodes of an authenticated trie is the branch of the value-level path |
| Certificates.Certify | include/coinChain/MerkleTrie.h:284-300 | looking an element up in memory and reading its branch gives a proof that validates against the root hash |
| Gaps.Descend | include/coinChain/MerkleTrie.h:227-264 | unary plus and minus in memory: the loop takes one step to one side of the branch where the search stopped and then always the other, to a leaf |
| Gaps.CertifyAbsence | include/coinChain/MerkleTrie.h:227-300 | for an absent key whose search stops at a branch that straddles it, the branches read off the nodes vouch for its immediate neighbours, are of the right shape and pass the test as coded and in full |
| KeyWords.TopOfXor | include/coinChain/Spendables.h:105-107 | the highest bit of the exclusive or is the highest differing bit |
| KeyWords.TopOfWords | include/coinChain/Spendables.h:91-110 | where the highest differing words of two rows are, the highest differing bit is |
| KeyWords.Log2 | include/coinChain/Spendables.h:69-76 | the loop returns the position of the highest bit set, and wraps to -1 for zero |
| KeyWords.CompareWords | include/coinChain/Spendables.h:91-110 | the word loop, in its mixed unsigned arithmetic, returns the signed distance of the two 288-bit keys |
| KeyWords.CompareIsSignedDistance | include/coinChain/Spendables.h:91-110 | comparison is zero on equal Coins, antisymmetric, and its sign is the numeric order |
| Limbs.BaseUint.AddAssign | include/coin/uint256.h:155-165 | addition with carry is exact modulo 2 to the number of bits, also when the argument is the object itself |
| Limbs.BaseUint.AssignWord64 | include/coin/uint256.h:70-77 | assigning a 64-bit number |
| Limbs.BaseUint.AddWord64 | include/coin/uint256.h:173-179 | adding a 64-bit number is exact modulo 2 to the number of bits |
| Limbs.BaseUint.Increment | include/coin/uint256.h:190-197 | increment is exact modulo 2 to the number of bits |
| Limbs.BaseUint.Decrement | include/coin/uint256.h:207-214 | decrement is exact modulo 2 to the number of bits |
| Limbs.BaseUint.Negated | include/coin/uint256.h:60-67 | flipping every bit and adding one is negation modulo 2 to the number of bits |
| Limbs.BaseUint.SubAssign | include/coin/uint256.h:167-171 | subtraction is exact modulo 2 to the number of bits |
| Limbs.BaseUint.ModulusIsPow2 | include/coin/uint256.h:33-34 | the modulus is 2 to the number of bits |
| Limbs.BaseUint.ShlAssign | include/coin/uint256.h:121-136 | shifting left is multiplying by a power of two modulo 2 to the number of bits, for every shift |
| Limbs.BaseUint.ShrAssign | include/coin/uint256.h:138-153 | shifting right is floor division by a power of two, for every shift |
| Limbs.BaseUint.Less | include/coin/uint256.h:225-235 | comparison from the top word down is numeric order |
| Hex.DigitTable | include/coin/uint256.h:309-331 | which digit each of the sixteen characters stands for, in lower and in upper case, and that lower case is written |
| Hex.CharacterTable | include/coin/uint256.h:321-333 | exactly these characters are digits, and exactly six characters are spaces |
| Hex.WrittenTable | include/coin/uint256.h:309-315 | what is written is one of the sixteen lower-case digits |
| Hex.DigitsInExactly | include/coin/uint256.h:322-334 | what is read of any text is d exactly when it is spaces, perhaps 0x or 0X, the digits d, and something that does not go on with a digit |
| Limbs.BaseUint.GetHex | include/coin/uint256.h:309-315 | the text has two lower-case digits a byte and spells the number |
| Limbs.BaseUint.SetHex | include/coin/uint256.h:317-347 | whenever a text is spaces, perhaps 0x or 0X, digits and something else, the number read is what the digits spell, modulo 2 to the number of bits |
| Limbs.BaseUint.Reread | include/coin/uint256.h:309-347 | what is written as text is read back unchanged |
| Mpi.MpiReadsBack | include/coin/BigNum.h:249-289 | every number is read back from its byte form, which is minimal |
| Mpi.MinimalIsWritten | include/coin/BigNum.h:264-289 | the minimal byte forms are exactly those that are written |
| Mpi.Mpi2BnReadsFront | include/coin/BigNum.h:264-277 | of a body whose length fills the header, as many bytes are read as its length fits 32 bits, if that length with the header fits an `int`; otherwise the number stays as it was |
| Compact.PositiveBody | include/coin/BigNum.h:303-314 | the size of a positive number's byte form bounds the number from both sides |
| Compact.CompactRoundsDown | include/coin/BigNum.h:291-314 | packing and unpacking a positive number never adds, loses less than one part in 2 to the 15, and packing what came back changes nothing |
| Compact.CompactIsMonotone | include/coin/BigNum.h:303-314 | a larger number never has a smaller compact form |
| Compact.CompactIdentity | include/coin/BigNum.h:291-314 | unpacking and packing is the identity exactly on forms without stray bits and without a byte to spare |
| Compact.CompactBytes | include/coin/BigNum.h:303-314 | the packed word holds the size of the byte form, modulo 256, in its top byte and the first three bytes in the others |
| Compact.CompactSays | include/coin/BigNum.h:291-301 | what is unpacked is 23 bits shifted left by the size less three bytes, or right by what it is short of three, and negative when bit 23 is set |
| Compact.HashesAreCompactable | include/coin/BigNum.h:303-314 | every 256-bit number has a compact form of its own size |
| BigNums.BigNum.Body64 | include/coin/BigNum.h:140-168 | emptying a 64-bit register from the top builds exactly the minimal signed byte form |
| BigNums.BigNum.SetInt64 | include/coin/BigNum.h:140-174 | every signed 64-bit number arrives unchanged |
| BigNums.BigNum.SetUint64 | include/coin/BigNum.h:194-219 | every unsigned 64-bit number arrives unchanged |
| BigNums.BigNum.SetUint | include/coin/BigNum.h:221-247 | every fixed-width number arrives unchanged |
| BigNums.BigNum.GetUint | include/coin/BigNum.h:249-262 | the fixed-width number is the magnitude modulo 2 to the number of bits |
| BigNums.BigNum.SetVch | include/coin/BigNum.h:264-277 | a byte string is read least significant byte first, as far as its length fits 32 bits and, with the header, an `int` |
| BigNums.BigNum.GetVch | include/coin/BigNum.h:279-289 | the byte string is the minimal byte form, least significant byte first |
| BigNums.BigNum.SetCompact | include/coin/BigNum.h:291-301 | the buffer that is filled in unpacks to the compact form's number; with the sign bit set the number stays as it was |
| BigNums.BigNum.GetCompact | include/coin/BigNum.h:303-314 | the bytes that are picked out are the number's compact form |
| BigNums.BigNum.ToText | include/coin/BigNum.h:346-370 | repeated division writes digits that spell the number's magnitude, in any base from 2 to 16, without zeros in front, and its sign |
| BigNums.BigNum.SetHex | include/coin/BigNum.h:316-344 | whenever a text is spaces, perhaps a minus sign, perhaps 0x or 0X, more spaces, digits and something else, the number read is what the digits spell, with the sign |
| BigNums.EveryTextSays | include/coin/BigNum.h:316-344 | every text can be taken apart in that way |
| BigNums.TextReadsBack | include/coin/BigNum.h:316-370 | every signed number is read back from its own hexadecimal text |
| BigNums.ThroughBigNum | include/coin/BigNum.h:221-262 | a fixed-width number survives the way through a big number |
| BigNums.ThroughVch | include/coin/BigNum.h:264-289 | a big number survives the way through its byte string exactly when the length of that, with the header, fits an `int` |
| BigNums.ThroughText | include/coin/BigNum.h:316-370 | a big number survives the way through its text |
| Scripts.PrefixFree | include/coin/Script.h:608-657 | no instruction is the beginning of another |
| Scripts.InstructionLayout | include/coin/Script.h:608-657 | codes up to 75 are the length of the data behind them, 76, 77 and 78 are followed by it in one, two or four bytes, the least significant first, and all others have no data |
| Scripts.OpsAndTail | include/coin/Script.h:608-657 | a script is the sequence of its instructions and an unreadable tail |
| Scripts.ReadsBackOps | include/coin/Script.h:608-657 | instructions in a row before something unreadable are the ones that are read: reading is unique |
| Scripts.WritableIsExact | include/coin/Script.h:515-568 | what is written is one instruction exactly when an opcode takes no data along and data is shorter than 2 to the 32 |
| Scripts.ScriptReadsBack | include/coin/Script.h:515-657 | any sequence of opcodes and pushes, in all four length classes, is read back |
| Scripts.PushIsShortest | include/coin/Script.h:543-568 | data stands behind its length in the form of its class, and no other instruction that pushes the same data is shorter |
| Scripts.NumberReadsBack | include/coin/Script.h:437-463 | a pushed number is read back, small ones as opcodes, others as bytes |
| Scripts.NumberBytes | include/coin/Script.h:437-463 | minus one and one to sixteen are written as 79 and 81 to 96, zero as a zero byte, every other number as a push of its shortest bytes |
| Scripts.SweepIsFilter | include/coin/Script.h:660-672 | deleting one instruction is filtering the list of instructions, with the unreadable tail kept |
| Scripts.IdempotentExactly | include/coin/Script.h:660-672 | for a pattern that is not empty, deleting it twice is deleting it once, on all scripts, exactly when it is one instruction over and over and at most a beginning of it after that, or cannot be read |
| Scripts.SweepIsIdempotent | include/coin/Script.h:660-672 | deleting one instruction twice is deleting it once |
| Scripts.FilterExactly | include/coin/Script.h:660-672 | for a pattern that is not empty, deletion equals the filter on all scripts exactly when the pattern is one complete instruction |
| Scripts.PairsAreNotIdempotent | include/coin/Script.h:660-672 | a script and a pattern of two instructions on which deleting twice deletes more |
| Scripts.SigOpsOfConcatenation | include/coin/Script.h:675-690 | the signature operations of scripts put together add up when the first is readable to its end |
| Scripts.SigOpsByCode | include/coin/Script.h:675-690 | the count is one for every instruction with code 172 or 173 and twenty for every one with 174 or 175 |
| Scripts.SigOpsOfItems | include/coin/Script.h:675-690 | of any row of opcodes and pushes that is written, the count is the number of opcodes 172 and 173 and twenty times the number of 174 and 175; what is pushed counts nothing |
| Scripts.PushesOfItems | include/coin/Script.h:709-721 | of such a row, only pushes are there exactly when no bare opcode is above 96 |
| Scripts.Script.AddOpcode | include/coin/Script.h:515-521 | an opcode that does not fit a byte is refused, any other appended |
| Scripts.Script.AddData | include/coin/Script.h:543-568 | data is appended as the push instruction of its length class |
| Scripts.Script.AddInt64 | include/coin/Script.h:437-449 | a signed number is appended as its number instruction |
| Scripts.Script.AddUint64 | include/coin/Script.h:451-463 | an unsigned number is appended as its number instruction |
| Scripts.Script.GetOp | include/coin/Script.h:608-657 | the cursor decoder reads exactly the readable instructions and moves past them; on failure it yields opcode 255, having moved past what could be read of code and length |
| Scripts.Script.FindAndDelete | include/coin/Script.h:660-672 | the nested loops end for every pattern, and filter out a pattern that is one instruction |
| Scripts.Script.GetSigOpCount | include/coin/Script.h:675-690 | the loop ends and returns the count of signature operations of the instructions up to the first unreadable byte |
| Scripts.Script.IsPushOnly | include/coin/Script.h:709-721 | the loop ends, and is true exactly when the whole script reads as pushes |
| BlockTrees.BlockTree.Find | include/coinChain/BlockTree.h:170-181 | a hash finds exactly the block of the tree that has it |
| BlockTrees.BlockTree.UpReaches | include/coinChain/BlockTree.h:25-39 | a block has exactly as many ancestors as the magnitude of its signed height |
| BlockTrees.BlockTree.UpOnTrunk | include/coinChain/BlockTree.h:25-39 | on the trunk the prev links step down the vector |
| BlockTrees.BlockTree.Advance | include/coinChain/BlockTree.h:211-244 | stepping back gives the n-th ancestor when there is one, and otherwise stays at the trunk block reached; stepping forward works on the trunk only |
| BlockTrees.BlockTree.ForkIsFirst | include/coinChain/BlockTree.h:224-243 | everything on the way down to the trunk block that a branch hangs on is on the branch |
| BlockTrees.BlockTree.LessThan | include/coinChain/BlockTree.h:92-112 | for different blocks, comparison is true exactly when the left one is an ancestor of the right one; the crawl ends |
| BlockTrees.BlockTree.Assign | include/coinChain/BlockTree.h:131-149 | a row of blocks is taken into a fresh tree exactly when each is linked to the one before, and leaves it in order |
| BlockTrees.BlockTree.AccumulatedWork | src/coinChain/BlockTree.cpp:41-52 | the accumulated work is the sum over the block and all its ancestors |
| BlockTrees.WorkIsShare | include/coinChain/BlockTree.h:264-270 | a positive target t takes the quotient of 2 to the 256 by t + 1; the work is nothing exactly for targets that are not positive, or not below 2 to the 256 |
| BlockTrees.HarderIsMoreWork | include/coinChain/BlockTree.h:264-270 | a smaller positive target never takes less work |
| BlockTrees.HashesArePow2 | include/coinChain/BlockTree.h:269-269 | the number that is divided is 2 to the 256 |
| Targets.ReadTarget | include/coinChain/BlockTree.h:265-266 | setting a fresh big number from a block's bits gives its target |
| Targets.TargetSays | include/coinChain/BlockTree.h:265-266 | the target's value from the bits: 23 bits shifted by the size, negative when bit 23 is set, nothing when bit 31 is |
| Targets.ReadWork | include/coinChain/BlockTree.h:264-270 | the work as computed from the bits is the block's work |
| BlockTrees.BlockTree.Demote | src/coinChain/BlockTree.cpp:75-86 | taking the top off the trunk leaves a valid tree of the same blocks |
| BlockTrees.BlockTree.Raise | src/coinChain/BlockTree.cpp:88-94 | putting a branch onto the trunk leaves a valid tree of the same blocks |
| BlockTrees.BlockTree.Insert | src/coinChain/BlockTree.cpp:54-107 | adding a block keeps the signed-height invariant through reorganisations, keeps every block's ancestors and work, reports exactly what left and entered the trunk, and leaves no block with more work than the tip; on a tie the trunk stays, and a block on the tip with a target from 1 to 2 to the 256 less one becomes the tip |
| Retarget.NextWorkRequired | examples/ponzicoin/ponzicoin.cpp:142-182 | the rule as coded: limit at the root, unchanged bits between adjustments, the clamped rescaling at one |
| Retarget.TargetIsRescaled | examples/ponzicoin/ponzicoin.cpp:160-174 | from 1800 to 28800 seconds the magnitude of the new target is the old one times the time by 7200, rounded down; below it is a quarter, above four times the old one; and at most the limit |
| Retarget.NextBitsAre | examples/ponzicoin/ponzicoin.cpp:142-182 | the next bits are the limit's at height zero, the block's own at heights whose successor is no multiple of 120, and those of the rescaled target at all others |
| Retarget.NextBitsOnTrunk | examples/ponzicoin/ponzicoin.cpp:156-182 | on the trunk the time is that since the block 119 places down |
| Retarget.NextBitsAreBounded | examples/ponzicoin/ponzicoin.cpp:142-196 | for a trunk block at an adjustment height with a positive target, the time is taken from exactly the 119th ancestor, and the next bits keep the bounds and pass the range test exactly when the target did not come out as zero |
| Retarget.FormerOnTrunk | examples/ponzicoin/ponzicoin.cpp:157-157 | on the trunk the former block is exactly the n-th ancestor |
| Retarget.NewTargetBounds | examples/ponzicoin/ponzicoin.cpp:160-174 | before packing the new target is within a factor of four of the old one and within the limit |
| Retarget.RetargetBounds | examples/ponzicoin/ponzicoin.cpp:160-196 | after packing it is still at most the limit and four times the old one, and at least a quarter of it up to one part in 2 to the 15; it passes the range test exactly when it did not come out as zero |
| Retarget.LimitFits | examples/ponzicoin/ponzicoin.cpp:192-196 | the chain's own limit has a compact form of its own size |
| Retarget.LimitIsPow2 | examples/ponzicoin/ponzicoin.cpp:51-51 | the chain's own limit is 2 to the 236, less one |
| Retarget.RangeTest | examples/ponzicoin/ponzicoin.cpp:192-196 | bits are in range exactly when bit 31 is clear and they unpack to a number from 1 to the limit |
| Names.FeeIsBounded | include/coinChain/Chain.h:317-328 | the fee is never negative and never above 50 coins |
| Names.FeeNeverRises | include/coinChain/Chain.h:317-328 | the fee never rises, within a period, across a halving, where it speeds up, or where it is cut to nothing |
| Names.FeeIs | include/coinChain/Chain.h:317-328 | the fee in numbers, with the powers of two and the bend at 24000 written out |
| Names.Fees | include/coinChain/Chain.h:317-328 | the fees at counts 1, 8193 and 24001 |
| Names.FeeSlope | include/coinChain/Chain.h:317-328 | within a period every block takes the same off, and four times that from 24000 on |
| Names.ExpiredStaysExpired | include/coinChain/BlockChain.h:278-299 | an expired name stays expired as the tree grows, and so do all registered before it |
| Names.Lifetime | include/coinChain/Chain.h:330-337 | a name lives for at least 12000 and at most 36000 blocks |
| Names.ExpiredExactly | include/coinChain/Chain.h:330-337 | a name has expired after 12000 blocks in trees of up to 24000, after 36000 in trees of more than 48000, and between the two exactly if its count is at most 12001 |
| Claims.OrderIsLexicographic | include/coinChain/Claims.h:53-64 | the order is by fee rate, highest first, then by delta, least first, and claims tie exactly when both agree |
| Claims.TimesWraps | include/coinChain/Claims.h:58-60 | a product that does not fit keeps its low 64 bits |
| Claims.StrictWeakOrder | include/coinChain/Claims.h:53-64 | the order is irreflexive and transitive, and ties are transitive |

## Left out

- SHA-256, scrypt and signatures: hash functions are parameters; where freedom from collisions matters a collision is computed.
- `InsertVisitor`, `RemoveVisitor` and `GraphVisitor` of the trie, its timers and memory pools: superseded by the path-based operations, or diagnostics.
- `begin()` of the trie: its paths start at the root and not at the genitor, and may feed neither `branch()` nor `remove()`.
- Iterators of a trie that are kept while it is changed: a path is used at once, as `insert` and `remove(Key)` do.
- An exception half way through an operation, threads and locks.
- Reference counts are unbounded; the original's is an `int`.
- The memory of a word-array is read as bytes least significant byte first, as on the machines libcoin runs on.
- BigNums.BigNum.SetInt64: for the smallest 64-bit number the original negates in place, which the language leaves undefined; the model lets the negation wrap around.
- BigNums.BigNum.SetCompact: not modelled for an `int` from -0x4000000 to -1, for which the size of the buffer wraps around to less than the four bytes that are written to.
- A negative zero, which OpenSSL can read from a lone sign bit, is zero here.
- Limbs.BaseUint.SetHex: for characters beyond 7-bit ASCII the original indexes outside its table; here they are no digits.
- `base_uint`'s bitwise operators, `<=`, `>`, `>=`, `==` and `!=`: the same loops as those modelled.
- BlockTrees.BlockTree.AccumulatedWork: bits from 0xFC000000 up are not modelled; unpacking them writes outside a buffer.
- BlockTrees.BlockTree.Assign: the original neither clears the heights of an earlier tree nor looks for a hash that occurs twice; it is modelled on a fresh tree and blocks with different hashes.
- BlockTrees.BlockTree.Insert: adding a block that is already in the tree, or that a root was waiting for, is not modelled; the original does not test for it.
- `BlockTree::pop_back`, `best_invalid`, `trim` and `BlockLocator`.
- Iterators of the block tree are values: that growing the trunk moves the blocks they point to is not modelled.
- Retarget.NextWorkRequired: the difference of two block times is an unbounded integer, where the original keeps it in an `int`; `blk` may be on a branch, where the adjustment heights come out shifted because branch heights are negative.
- Names.FeeNeverRises: only for counts of at least 1 whose accelerated height fits an `int`, as the original needs.
- Claims.StrictWeakOrder: only where the products fit 64 bits and sizes are positive; otherwise the original's products overflow.
- The database, the network, wallets, assets, RPC, and applications other than the retarget rule.
