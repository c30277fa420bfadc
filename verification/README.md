# A model of the node's data structures, hashes and chain rules

The node keeps a table of peer addresses, hashes blocks with a chain of hash functions, selects blocks for
the proof-of-stake modifier, follows synchronized checkpoints and encodes keys and targets. This project
models the parts of it whose logic is self-contained and proves what they promise.

* **Address manager** (`AddrTypes`, `AddrBook`, `AddrTables`, `AddrSelect`, `AddrMan`, `AddrCheck`, `AddrDisk`,
  `AddrLoad`, `AddrRuns`, `AddrSteps`, `AddrSpread`). `AddrMan.AddrMan` is the class with its fields changed in place. `AddrTables.Inv` is what every
  state keeps, and `AddrTables.View` forgets ids, positions, order and counts: what is left is a book from
  addresses to where they are. Each operation is proved to keep the invariant and to be one step on that book;
  what holds over whole runs is proved of the steps. Hash, group and routability of an address are
  uninterpreted functions, random numbers are arbitrary, and the clock is a function of the address it is read
  for, so that every reading may differ.
* **Hash functions** (`Bytes`, `Blocks`, `Arith`, `Lanes`, `Keccak*`, `Interleave`, `Blake*`, `Jh`). Keccak is
  proved from the permutation of the code, with renamed words and complemented lanes, up to the digest of
  FIPS 202. BLAKE and JH leave the compression of one block open and prove what blocks, and for BLAKE what
  counters, it is given. Words are sequences of bits.
* **Block structures** (`Merkle`, `Locator`), **proof-of-stake modifier** (`StakeModifier`, `StakeChain`), **synchronized
  checkpoints** (`Checkpoints`). A chain is a sequence of blocks by height, a block tree a map that only grows.
* **Encodings** (`Numerals`, `BigNum`, `Compact`, `Base58`) and **page locks** (`LockedPages`).

`FiniteSets` holds facts about finite sets, `Options` the usual type.

Where the code and its comments differ the model follows the code. The comment on the selection of a tried
entry says that the least recently tried of the entries drawn is replaced; the code swaps that entry to the
front and returns the position it was drawn from. `AddrSelect.AlwaysOldestExactly` says for which buckets the
entry at that position is always the least recent of those drawn: only those whose entries all succeeded at the
same time. `AddrSelect.OldestCanBeMissed` gives a full bucket and draws for which it is not.

The comment on the selection hash says that a proof-of-stake block is always favored. `StakeModifier.StakeWins`
proves it of work blocks whose digest is 2^224 or more; `StakeModifier.WorkWinsExactly` says which others win.

Times given to `Good` are positive and those given to `Attempt` not negative, as in all calls of the source.
The pair hash of the Merkle tree is assumed injective only where the table says so.

## Model

| member | source | states |
|---|---|---|
| `AddrMan.AddrMan.Good` | src/addrman.cpp:262-311 | From a consistent manager, a success leaves a consistent one, and on addresses it is exactly a promotion: the matching new address becomes tried, and when its bucket holds 64, one tried address of that bucket becomes new again, in its source's bucket or, when that is full, in a bucket the promoted address just left. Anything else is unchanged. On the tables, the one that goes is the entry at the position that the draws select. |
| `AddrMan.AddrMan.Add` | src/addrman.cpp:313-369 | Keeps consistency; an unroutable address changes nothing; a known one is at most refreshed and given one more bucket; an unknown one enters its bucket, which drops one member first when it is full: one that is terrible when it is looked at, or any when none is. A known address in n buckets gets another exactly when a draw below 2^n is 0. |
| `AddrSteps.Announced` | src/addrman.cpp:313-369 | A routable address that was unknown is known afterwards, with the time less the penalty, no tries, and exactly the bucket of its source. |
| `AddrSteps.AnnouncedAgain` | src/addrman.cpp:326-367 | A known address gains the services announced, and one more bucket exactly when the announcement is later than what is recorded, it is new in fewer than 4, and the draw is 0; nothing else of it changes but the time. |
| `AddrSteps.TimeRecorded` | src/addrman.cpp:322-331 | The recorded time never goes back, is afterwards at most an hour or a day and the penalty behind the announcement, and the same announcement does not move it twice. |
| `AddrSteps.LuckIsOneIn` | src/addrman.cpp:346-352 | The draw for another bucket is below 2, 4 or 8 for an address in 1, 2 or 3 buckets. |
| `AddrSteps.SuccessNoted` | src/addrman.cpp:277-311 | After a success the address is tried, with the time of the success, of the try and of the last sight, and no failures. |
| `AddrSteps.SentBack` | src/addrman.cpp:218-255 | Another address changes only when it was tried in the same full bucket; it goes to the bucket of its own source if there is room, and else to one the promoted address left. |
| `AddrSteps.NobodySentBack` | src/addrman.cpp:217-226 | With room in the tried bucket a success changes no other address. |
| `AddrSteps.AttemptNoted` | src/addrman.cpp:371-388 | An attempt counts one more failure and sets the time of the try, of that address alone. |
| `AddrSteps.ConnectionNoted` | src/addrman.cpp:510-528 | A finished connection moves the time of that address alone, when it is more than 1200 seconds behind. |
| `AddrSteps.TerribleExactly` | src/addrman.cpp:38-56 | Exactly when an address may be thrown away: not tried within 60 seconds, and stamped over 600 seconds ahead, never or not in 30 days seen, tried 3 times without a success, or 10 times without one in 7 days. |
| `AddrSteps.FreshStays` | src/addrman.cpp:158-174 | An address seen in the last 30 days with fewer than 3 failures is dropped only from a bucket in which none is terrible. |
| `AddrSpread.SourceSpread` | src/addrman.cpp:24-36 | Whatever the hash, all announcements from sources of one range reach at most 32 new buckets. |
| `AddrSpread.OneSourceSpread` | src/addrman.cpp:24-36 | Any set of addresses announced by one source reaches at most 32 new buckets. |
| `AddrSpread.TriedSpread` | src/addrman.cpp:10-22 | All services of one range have their places in at most 4 tried buckets. |
| `AddrSpread.SameRanges` | src/addrman.cpp:24-36 | Addresses of one range announced by sources of one range share a new bucket. |
| `AddrSpread.SpreadReached` | src/addrman.cpp:10-36 | The limits can be reached: with a hash that adds, one source range uses buckets 0 to 31 and one address range tried buckets 0 to 3. |
| `AddrSpread.ConsistentSpread` | src/addrman.h:114-116 | A consistent manager holds at most 256 tried addresses of one range. |
| `AddrSpread.RunSpread` | src/addrman.h:101-116 | So does every book of every run. |
| `AddrMan.AddrMan.Attempt` | src/addrman.cpp:371-388 | Keeps consistency and changes only the time of the last try and the count of attempts of the matching address. |
| `AddrMan.AddrMan.Connected` | src/addrman.cpp:510-528 | Keeps consistency and moves the time of the matching address only when it lies more than 20 minutes back. |
| `AddrMan.AddrMan.GetAddr` | src/addrman.cpp:494-508 | Gives min(2500, 23 percent) of the known addresses, pairwise distinct; the book of addresses is unchanged, the random order only permuted, and its inverse index still right. |
| `AddrMan.AddrMan.FindBucket` | src/addrman.cpp:289-305 | On a consistent manager the search for a bucket that holds a new id always finds one, from any random start: the bail-out is unreachable. |
| `AddrMan.AddrMan.ShrinkNew` | src/addrman.cpp:150-202 | Removes exactly one member of the bucket: the lowest id that is terrible when it is looked at, and only when none is, the longest unannounced of at most four drawn ranks. Holds also while one member counts one reference too many. |
| `AddrMan.AddrMan.SelectTried` | src/addrman.cpp:126-148 | Keeps the bucket a permutation, draws min(4, size) entries without repetition, and returns the position the draws determine. |
| `AddrSelect.FoundIsOldest` | src/addrman.cpp:130-145 | After the draws the entries drawn stand at the front of the bucket, and the one recorded as oldest succeeded no later than any of them and strictly longer ago than those drawn before it. |
| `AddrSelect.AlwaysOldestExactly` | src/addrman.cpp:126-148 | For every bucket: the entry left at the returned position succeeded no later than any entry drawn, whatever is drawn, if and only if all entries of the bucket succeeded at the same time; in a bucket of two, if and only if the first did no later than the second. |
| `AddrSelect.OldestCanBeMissed` | src/addrman.cpp:136-147 | A full bucket of 64 whose last entry is older than its first four: with draws 63, 1, 2, 3 the oldest is found at once, and the position returned holds the entry that was first, against the comment in the source. |
| `AddrMan.AddrMan.MakeTried` | src/addrman.cpp:204-260 | The state afterwards is the promotion into a bucket with room, or the entry takes the place of the one at the position that some admissible draws select, which goes back to its own new bucket or, when that is full, to the one the promoted entry came from. |
| `AddrMan.AddrMan.SwapRandom` | src/addrman.cpp:106-124 | Exchanges two places of the random order and the two recorded positions, nothing else. |
| `AddrMan.AddrMan.Create` | src/addrman.cpp:94-104 | Adds one entry under a fresh id to all indexes at once, with no reference yet. |
| `AddrMan.AddrMan.Check` | src/addrman.cpp:435-491 | Returns 0 if and only if the tables are consistent in the sense of the check, and always returns 0 and changes nothing on a manager that the operations produced. |
| `AddrCheck.ValidIsConsistent` | src/addrman.cpp:435-491 | The invariant of the class implies every condition of the executable check. |
| `AddrCheck.CheckedExactly` | src/addrman.cpp:435-491 | The check is exact: the invariant is what the check tests together with what it does not look at, that is ids, stale names, the sizes of buckets and whether tried members belong there. |
| `AddrCheck.CheckTried` | src/addrman.cpp:466-474 | The pass over the tried buckets succeeds if and only if the slots hold each tried id once and nothing else. |
| `AddrCheck.CheckNew` | src/addrman.cpp:476-488 | The pass over the new buckets succeeds if and only if every new id sits in as many buckets as its reference count says. |
| `AddrCheck.CheckEntries` | src/addrman.cpp:442-464 | The pass over the entries succeeds if and only if entries, address index and random order are mutually inverse and counts are in range. |
| `AddrTables.UnrefKeeps` | src/addrman.cpp:162-170 | Taking one reference away keeps all tables consistent, also with one entry a reference ahead, and on addresses drops one bucket, and the address itself when that was its last. |
| `AddrTables.SwapKeeps` | src/addrman.cpp:106-124 | Exchanging two entries of the random order keeps the invariant and shows nowhere in the book of addresses. |
| `AddrTables.PlaceAfterUnref` | src/addrman.cpp:359-367 | With the new entry counted one reference ahead, taking out the member that the shrinking names and inserting restores the exact counts and is one placement step on addresses, which drops a terrible address unless none in the bucket is. |
| `AddrTables.MovedIsStep` | src/addrman.cpp:204-260 | Every outcome of a move to tried keeps the invariant and is a promotion on addresses. |
| `AddrTables.ViewOk` | src/addrman.cpp:435-491 | Consistent tables stand for a book in which every new address has 1 to 4 buckets, every tried one has succeeded, and no bucket has more than 64 members. |
| `AddrTables.ViewSize` | src/addrman.cpp:440-464 | Addresses, entries and random order are equally many, as many as the two counters say together. |
| `AddrRuns.RunKeepsOk` | src/addrman.cpp:262-388 | Every book in every run of operations from the empty one, with any draws and clocks, obeys those limits. |
| `AddrRuns.RunBounded` | src/addrman.h:99-112 | After any run there are at most 64*64 + 256*64 addresses and at most 64 in any bucket. |
| `AddrRuns.TriedNeverForgotten` | src/addrman.h:214-217 | No operation deletes a tried address; only another address's success can send it back, to one new bucket. |
| `AddrRuns.OnlyAddForgets` | src/addrman.h:214-217 | Only an announcement deletes, at most one address, and one whose last place was in the bucket the announced address goes to, and which was terrible unless no address in that bucket was. |
| `AddrRuns.AddOthers` | src/addrman.cpp:313-369 | An announcement affects at most one other address, which loses one place in that bucket and was terrible unless no address in it was. |
| `AddrRuns.GoodOthers` | src/addrman.cpp:262-311 | A success affects another address only by sending a tried one back to a single new bucket. |
| `AddrMan.AddrMan.Save` | src/addrman.h:280-318 | The file lists every new entry, then every tried one, and each bucket as positions in the list of new entries, each once. |
| `AddrMan.AddrMan.FromFile` | src/addrman.h:319-379 | Loading builds, loop by loop, the state that the file determines, with the rebuilding of buckets when their number differs; the manager is consistent afterwards if and only if the file loads well. |
| `AddrLoad.LoadedExactly` | src/addrman.h:319-379 | Any readable file gives consistent tables if and only if the entries that are kept have different addresses and possible times of success and, with the same number of buckets, exactly the new entries are listed, the first four listings of each in different buckets, and no bucket gets more than 64; with another number, only ids that exist are listed and no home bucket is named more than 64 times. |
| `AddrLoad.LoadedBook` | src/addrman.h:319-379 | The book loaded then holds the new entries in the buckets that count, or in their home when the buckets are computed anew, the tried entries that no 64 earlier ones keep out of their bucket, and nothing else. |
| `AddrLoad.OverfullBucket` | src/addrman.h:338-342 | A file without buckets and with more than 64 new entries of one home loads to a bucket that holds all of them, which is not consistent: the rebuild puts no bound on a bucket. |
| `AddrDisk.SavedAndLoaded` | src/addrman.h:249-381 | Loading a saved manager loses no entry, gives a state with the full invariant, and the same book of addresses up to the unsaved time of the last try: same buckets, same counters. |
| `Keccak.KeccakF` | src/keccak.c:1392-1467 | The unrolled permutation in place, on any 25 words, is the 24-round permutation of FIPS 202 on the lanes with six of them complemented before and after. |
| `Keccak.RoundMask` | src/keccak.c:958-1135 | One round as the code computes it on complemented lanes is one plain round followed by complementing the same six lanes. |
| `Keccak.ChiMask` | src/keccak.c:1047-1135 | The mix of and, or and single complements in the fourth step is the plain chi on lanes whose complements moved with pi. |
| `Keccak.ThetaMask` | src/keccak.c:958-1014 | Where the complements of six lanes go in theta. |
| `Keccak.Renaming` | src/keccak.c:1139-1156 | Reading the words under the next list of names is the permutation pi of the lanes. |
| `KeccakSpec.PiSourceFormula` | src/keccak.c:1139-1156 | The table of pi used here moves lane (x + 3y, x) to (x, y), as FIPS 202 has it. |
| `KeccakSpec.ThetaBit` | src/keccak.c:958-1014 | Bit by bit theta is section 3.2.1 of FIPS 202: each bit gets the parities of two columns. |
| `KeccakSpec.RhoBit` | src/keccak.c:1016-1045 | Rho is section 3.2.2: the bits of a lane move up by its amount. |
| `KeccakSpec.PiBit` | src/keccak.c:1139-1156 | Pi is section 3.2.3. |
| `KeccakSpec.ChiBit` | src/keccak.c:1070-1135 | Chi is section 3.2.4: each bit gets the product of the next one inverted and the one after. |
| `KeccakSponge.XorIntoBit` | src/keccak.c:733-740 | Bit z of a block is added to bit z mod 64 of lane (x, y) with z / 64 = x + 5y, as section 3.1.2 has it. |
| `KeccakSponge.SqueezeBit` | src/keccak.c:1635-1647 | The digest is read off in the same order. |
| `KeccakSponge.PadIs` | src/keccak.c:1618-1634 | The padding fills up the last block with a one, as few zeros as that takes, and a one. |
| `KeccakSponge.Rates` | src/keccak.c:1704-1707 | The four digests use blocks of 1152, 1088, 832 and 576 bits. |
| `KeccakSpec.Coordinates` | src/keccak.c:1139-1156 | The case distinctions that stand for the two coordinates of a lane and for sums modulo 5 are quotient and remainder by 5, and lane k stands at its coordinates. |
| `Keccak.NamingsOk` | src/keccak.c:1139-1156 | Each of the nine lists names every word once, and each is the one before with the lanes moved by pi. |
| `Keccak.MovedBackView` | src/keccak.c:1313-1347 | The cycles at the end of eight rounds undo eight renamings. |
| `Keccak.ThetaInPlace` | src/keccak.c:975-1014 | The in-place step, computing all column effects first, is theta. |
| `Keccak.KhiInPlace` | src/keccak.c:1070-1135 | The in-place step, row by row, is the code's form of chi on the lanes as they were. |
| `KeccakSpec.OffsetsFollowTheWalk` | src/keccak.c:1016-1045 | The rotation amounts are those Algorithm 2 of FIPS 202 computes along its walk. |
| `KeccakSpec.ConstantsFollowTheRegister` | src/keccak.c:136-149 | The 24 round constants are made of the output bits of the shift register of Algorithm 5 of FIPS 202. |
| `KeccakHash.Context.Update` | src/keccak.c:1568-1603 | Appends to the message whatever the split; the words then stand for the absorbed whole blocks and the buffer for the rest. |
| `KeccakHash.Context.Close` | src/keccak.c:1607-1647 | The digest is that of KECCAK[c] of FIPS 202 on all bits fed since the start, with the n extra bits, for all four sizes; the context is then as new. |
| `KeccakHash.TailPads` | src/keccak.c:1618-1634 | Message and closing bytes are message bits and pad10*1, also when seven extra bits in the last byte force a block more. |
| `KeccakHash.EndByteValue` | src/keccak.c:1616-1617 | The closing byte is (0x100 + ub) shifted down by 8 - n, as a number. |
| `KeccakHash.BlockMask` | src/keccak.c:183-188 | Adding a block to the words commutes with the complement of the lanes. |
| `KeccakHash.InitiallyZero` | src/keccak.c:1525-1566 | The initial words stand for the zero state. |
| `Interleave.InterleaveRoundTrip` | src/keccak.c:425-457 | Undoing the interleaving gives both words back, for every pair. |
| `Interleave.InterleavedHolds` | src/keccak.c:425-441 | Interleaving separates the even and the odd bits of the 64-bit word. |
| `Interleave.RolPairRotates` | src/keccak.c:770-861 | For each amount from 1 to 63 the rotation of the two words is the rotation of the 64-bit lane they hold. |
| `Blake.Context.Close` | src/blake.c:840-890 | For both word sizes: byte j of word i of the digest is byte j of word i of the last chain value; the digest is the chain over exactly the padded blocks of the whole message, each compressed with the count of message bits up to its end, zero for a block without message bits, for every length modulo the range of the counter; then the context is as new. |
| `Blake.Context.Update` | src/blake.c:801-837 | Two updates leave what one update with all data leaves, compressions and counter included. |
| `Blake.BiasUndone` | src/blake.c:859-867 | Whatever close puts into the two counter words, the next advance wraps them to the true count, or to zero for a block without message bits. |
| `Blake.NextAdds` | src/blake.c:828-833 | Advancing two words with the carry seen in the low one adds the block size to the count, at every value. |
| `Blake.FlowSplit` | src/blake.c:801-837 | The stream after two updates is that after one with both data. |
| `Blake.ClosedInOne` | src/blake.c:868-874 | When the message ends early enough, the compressions are the full blocks and one with the end, the padding and the length. |
| `Blake.ClosedInTwo` | src/blake.c:875-886 | Otherwise the length is in a block of its own, compressed with a zero counter. |
| `Blake.EndingPads` | src/blake.c:853-886 | Message, closing bits and length words are the padded message of the submission. |
| `BlakeSpec.PadIs` | src/blake.c:853-886 | The padded message is whole blocks: the message, a one, zeros for less than a block, the bit that tells the long digest, and the length. |
| `BlakeSpec.CallsAre` | src/blake.c:840-890 | Call i compresses piece i of the padded message with the number of its counter, low word first. |
| `BlakeSpec.CounterIs` | src/blake.c:853-866 | The counter is the message bits up to the end of the block, and 0 for a block without message bits. |
| `BlakeSpec.OutputAt` | src/blake.c:888-890 | The words of the digest stand in their order, each highest byte first. |
| `Blake.LengthWords` | src/blake.c:857-858 | The two length words hold the bit length modulo their range, without overflow of the lower one. |
| `Jh.Context.Close` | src/jh.c:954-1001 | Byte i of the digest is byte 128 - 4 * words + i of the state after exactly the blocks of the padded message, whatever the split. |
| `Jh.Context.Update` | src/jh.c:909-952 | Appends to the message; state, buffer and block count stand for it. |
| `Jh.TailPads` | src/jh.c:967-994 | The closing bytes with 47 or 111 - ptr zeros are a one, 383 zeros and up to whole blocks, and the length in 128 bits. |
| `Jh.PadIs` | src/jh.c:967-994 | The padded message is whole blocks: the message, a one, at least 383 and less than 895 zeros, and the length. |
| `Jh.LengthWords` | src/jh.c:976-979 | The two words hold the bit length, modulo 2^73 because the block count has 64 bits. |
| `Blocks.CutConcat` | src/blake.c:817-836 | A stream has only one cut into full blocks and a shorter rest. |
| `Merkle.Block.BuildMerkleTree` | src/main.h:963-980 | The array holds the levels one after the other, and the result is the root, zero for no transactions. |
| `Merkle.Block.GetMerkleBranch` | src/main.h:982-996 | The branch read from the array is the list of siblings on the way up, the node itself where a sibling is missing. |
| `Merkle.CheckMerkleBranch` | src/main.h:998-1011 | The result is the climb along the branch, and zero for index -1. |
| `Merkle.BranchLeadsToRoot` | src/main.h:982-1011 | For every list and every index, climbing from the leaf along its branch gives the root. |
| `Merkle.FlatIsTree` | src/main.h:963-980 | Every node of the recursively defined tree, with a missing right child replaced by the left one, stands at its place in the array. |
| `Merkle.FlatLength` | src/main.h:963-980 | The array holds nothing but these nodes. |
| `Merkle.RootIsTop` | src/main.h:963-980 | The root is the top node of that tree. |
| `Merkle.NodeIs` | src/main.h:971-977 | A node is the hash of its left child followed by its right one, or of the left one twice. |
| `Merkle.SmallRoots` | src/main.h:963-980 | The roots of up to three transactions written out. |
| `Merkle.ClimbInjective` | src/main.h:998-1011 | With an injective pair hash, equally long branches at one index to one root have the same leaf and the same siblings. |
| `Merkle.OnlyTheLeafChecks` | src/main.h:998-1011 | Then only the leaf at that index, with its own branch, checks against the root. |
| `Merkle.RootInjective` | src/main.h:963-980 | With an injective pair hash, equally long lists with one root are equal. |
| `Merkle.LastTwice` | src/main.h:971-974 | An odd number of transactions, at least three, and the same with the last one repeated have one root. |
| `Merkle.SameRoot` | src/main.h:963-980 | With an injective pair hash, any two lists, of which the taller tree is cut to the height of the other, have one root if and only if they read the same when every missing right child is filled with its left one. |
| `Merkle.SameRootExactly` | src/main.h:963-980 | If moreover no transaction is the hash of a pair, any two lists have one root if and only if their trees are equally high and read the same at the leaves. |
| `Locator.BlockLocator.Set` | src/main.h:1489-1504 | The locator names the blocks at distances 0 to 11, then 9 + 4, 9 + 8 and so on as far as there are blocks, and then the genesis block. |
| `Locator.GapsDouble` | src/main.h:1489-1504 | The tip and its ten nearest ancestors are named, and from the eleventh on each gap is twice the last. |
| `Locator.BlockLocator.GetDistanceBack` | src/main.h:1506-1525 | The doubling count gives the distance of the first entry on the main chain, or of the place after the last entry; it and the step fit into a signed 32-bit number if and only if that is one of the first 41 places. |
| `Locator.CountedBack` | src/main.h:1506-1525 | That is the true distance of the block found, and too far exactly when only the appended genesis entry is found. |
| `Locator.CountedTooFar` | src/main.h:1506-1525 | Fifteen blocks of which only the genesis block is shared: it is 14 back and counted as 17. |
| `Locator.CountFits` | src/main.h:1506-1525 | Distance and step at an entry fit into a signed 32-bit number if and only if it is among the first 41. |
| `Locator.LocatorCountFits` | src/main.h:1489-1525 | So they do on every locator of a chain of up to 2^30 blocks that shares the genesis block. |
| `Locator.LandsNearFork` | src/main.h:1527-1541 | The block found is an ancestor on the main chain, never nearer and at most twice as far back as where the branches part. |
| `Locator.LocatorLength` | src/main.h:1489-1504 | For a tip at height h of 11 or more there are at most 12 + log2 h entries. |
| `Locator.BlockLocator.GetBlockHash` | src/main.h:1543-1557 | Finds the first entry on the main chain, else the genesis block. |
| `StakeModifier.ComputeNextStakeModifier` | src/kernel.cpp:144-244 | Fails only on a chain without any generated modifier; otherwise the old modifier within an interval, or a new one made of min(64, n) rounds, none of which is without a choice (see `StakeModifier.NewModifierIs`). |
| `StakeModifier.SelectRounds` | src/kernel.cpp:189-208 | Every round has a choice, the choices are those the rounds define, and the modifier collects their bits. |
| `StakeModifier.SelectBlockFromCandidates` | src/kernel.cpp:78-129 | Picks the unselected candidate with the least selection hash up to the stop, the earliest of equals, or the earliest one when none is that early; fails if and only if all are selected. |
| `StakeModifier.ChoiceFavours` | src/kernel.cpp:95-122 | In terms of the digests: against every unselected block in the window the choice has the smaller digest, that of a proof-of-stake block divided by 2^32 first, and the earlier of equals is chosen. |
| `StakeModifier.StakeWins` | src/kernel.cpp:99-111 | With 256-bit digests a proof-of-work block whose digest is 2^224 or more is never chosen while an unselected proof-of-stake block is in the window. |
| `StakeModifier.WorkWinsExactly` | src/kernel.cpp:104-122 | Of one proof-of-work and one proof-of-stake block the first is chosen if and only if its digest is below the other's divided by 2^32, or equal to that and earlier. |
| `StakeModifier.BeyondWindow` | src/kernel.cpp:90-98 | A block after the window is chosen only when none is left in it, and then the earliest. |
| `StakeModifier.SectionsGrow` | src/kernel.cpp:61-65 | The sections grow from a third of the interval to the whole of it. |
| `StakeModifier.CandidateExactly` | src/kernel.cpp:174-187 | A block is a candidate if and only if no block from it to the tip is older than the start of the tip's interval less all sections. |
| `StakeModifier.NewModifierIs` | src/kernel.cpp:189-243 | A new modifier in full: one pick a round out of what earlier rounds left over, hashed with the modifier of the last generating block, in windows from the start of the candidates; bit r is the entropy bit of pick r. |
| `StakeModifier.SomeLeft` | src/kernel.cpp:194-201 | With fewer picks than candidates of distinct hashes, some candidate is left. |
| `StakeModifier.PicksDistinct` | src/kernel.cpp:97-98 | No block is picked in two rounds. |
| `StakeModifier.SelectionIsUnique` | src/kernel.cpp:78-129 | The picks are determined: every node with the same chain makes the same ones. |
| `StakeModifier.NextModifierIsUnique` | src/kernel.cpp:144-244 | And so the modifier and whether it is a new one. |
| `StakeModifier.ModifierBit` | src/kernel.cpp:203-204 | Bit r is the entropy bit of the block picked in round r. |
| `StakeModifier.ModifierFits` | src/kernel.cpp:190-206 | The modifier has as many bits as there were rounds, so it fits into 64. |
| `StakeModifier.CandidatesFacts` | src/kernel.cpp:174-187 | The candidates are the blocks back to the first too old one, sorted by time and hash, each once. |
| `StakeChain.NeverWithoutModifier` | src/kernel.cpp:154-160 | On a chain whose blocks got their modifiers this way the computation never fails. |
| `StakeChain.ModifierOfNearest` | src/main.h:1318-1328 | Each block has the modifier of the nearest block up to itself that generated one. |
| `StakeChain.GeneratesInLaterInterval` | src/kernel.cpp:165-172 | A block generates a modifier if and only if its parent is in a later modifier interval than the last generating block. |
| `StakeChain.AddToBlockIndex` | src/main.h:1318-1328 | The operation at src/main.cpp:2177-2222: entering a new block after an indexed chain gives it the modifier and flag computed from that chain; if the chain's modifiers are computed it fails if and only if the hash is known or the block's checksum is not the one fixed for its height, the longer chain's are computed too, and so are those of every other indexed chain. |
| `StakeChain.MarkedAlike` | src/kernel.cpp:453-485 | Two chains that pass one fixed checksum have the same flags, proofs and modifiers at every height up to it, or their checksums collide at some height. |
| `StakeChain.AppendKeepsComputed` | src/main.h:1318-1328 | A block appended with the next modifier, as src/main.cpp:2211-2216 does, keeps every block's modifier the one computed from the blocks before it. |
| `StakeChain.SameNextModifier` | src/kernel.cpp:144-245 | The next modifier depends on the chain and the rules, not on what other blocks are in the index. |
| `StakeChain.ModifiersAgree` | src/kernel.cpp:144-245 | Nodes that have entered the same blocks in the same order along a chain have the same modifiers and flags on it. |
| `StakeModifier.GetLastStakeModifier` | src/kernel.cpp:47-58 | Finds the nearest generating block, and nothing if and only if there is none. |
| `StakeChain.GetKernelStakeModifier` | src/kernel.cpp:249-291 | Gives the modifier of the first generating block of the main chain that is a selection interval later than the block asked for, with its height and time, and nothing if and only if there is none yet. |
| `StakeChain.KernelModifierIsStable` | src/kernel.cpp:249-291 | Once given, the answer stays the same when the main chain is extended. |
| `Checkpoints.SyncCheckpoints.Validate` | src/checkpoints.cpp:97-137 | Accepts exactly a known block that strictly builds on the current checkpoint, and notes a block as invalid exactly when neither builds on the other. |
| `Checkpoints.SyncCheckpoints.Process` | src/checkpoints.cpp:398-447 | On success the checkpoint is the block of the message, on the main chain, above the previous one; every failure leaves the checkpoint alone; message and pending message keep naming their blocks. |
| `Checkpoints.SyncCheckpoints.AcceptPending` | src/checkpoints.cpp:156-198 | The same for a pending checkpoint whose block has come in. |
| `Checkpoints.ProcessedExactly` | src/checkpoints.cpp:398-447 | A message is followed at once if and only if it is signed, names a known block that strictly builds on the checkpoint, and the switch and the write succeed. |
| `Checkpoints.NotFollowed` | src/checkpoints.cpp:398-447 | What else a message does: unsigned nothing; an unknown block is kept as pending with its message; an ancestor changes nothing; a block of another branch, or one that cannot become best, is noted as invalid. |
| `Checkpoints.AcceptedExactly` | src/checkpoints.cpp:156-198 | The same for the pending checkpoint; one that is known and does not build on the checkpoint is given up. |
| `Checkpoints.PendingFollowed` | src/checkpoints.cpp:398-447 | A checkpoint signed before its block is known is followed when the block comes in, whatever happens in between short of another signed message. |
| `Checkpoints.PassesExactly` | src/checkpoints.cpp:215-240 | An unknown block passes if and only if the checkpoint will be one of its ancestors. |
| `Checkpoints.KnownPassesExactly` | src/checkpoints.cpp:215-240 | A known block passes if and only if the checkpoint is one of its ancestors or it is lower than the checkpoint. |
| `Checkpoints.SyncCheckpoints.CheckSync` | src/checkpoints.cpp:215-240 | Above the checkpoint only blocks that build on it pass, at its height only itself, below it only known blocks. |
| `Checkpoints.TraceBack` | src/checkpoints.cpp:225-230 | The walk back ends in the one ancestor at that height and never meets a missing link. |
| `Checkpoints.StepMovesForward` | src/checkpoints.cpp:97-198 | Every step keeps the checkpoint or moves it to a known block that strictly builds on it. |
| `Checkpoints.RunMovesForward` | src/checkpoints.cpp:97-198 | Over every run on a growing tree the checkpoint builds on every earlier one. |
| `Checkpoints.StaysRejected` | src/checkpoints.cpp:215-240 | An unknown block that is rejected once is rejected after every run for as long as it stays unknown. |
| `Base58.EncodeBase58` | src/base58.h:29-67 | The loop over quotients gives the encoding: a 1 for every leading zero byte and the base-58 digits of the number. |
| `Base58.DecodeBase58` | src/base58.h:77-121 | Succeeds exactly on strings that consist of alphabet characters between white space, and trims the sign byte and restores leading zeros rightly. |
| `Base58.DecodeEncode` | src/base58.h:29-121 | Every byte vector comes back, with leading zeros and with a high top byte. |
| `Base58.EncodeDecode` | src/base58.h:29-121 | Every string that can be decoded comes back without the white space around it. |
| `Base58.EncodedIs` | src/base58.h:29-67 | The string is the number that the vector is, highest byte first, in base 58, with as many ones in front as the vector has zeros. |
| `Base58.EncodedExample` | src/base58.h:29-67 | The vector 0, 1, 0 is 15R. |
| `Base58.StripIs` | src/base58.h:77-99 | White space, six characters, is dropped at both ends and nothing else. |
| `Base58.DecodeEncodeCheck` | src/base58.h:134-162 | The same with a checksum. |
| `Base58.EncodeDecodeCheck` | src/base58.h:134-162 | And the other way round. |
| `Base58.ChecksumBehind` | src/base58.h:134-141 | The string stands for the vector with its checksum behind it. |
| `Base58.DecodedCheckExactly` | src/base58.h:144-162 | A string passes if and only if it stands for some vector with its checksum behind it, and gives that vector. |
| `Base58.Base58Data.SetString` | src/base58.h:212-228 | Sets version and data from a string that decodes to at least one byte, and otherwise clears both. |
| `Base58.SetBack` | src/base58.h:212-240 | Setting what was written restores version and data. |
| `Base58.AlphabetPlaces` | src/base58.h:26 | The ranges used for characters are the places in the written alphabet. |
| `Numerals.ConvertBack` | src/base58.h:29-121 | Converting digits from one base to another and back, with one zero per leading zero, gives the same digits. |
| `BigNum.SetInt64` | src/bignum.h:167-210 | The bytes built denote exactly the argument for every 64-bit integer, the least one included. |
| `BigNum.PutWord` | src/bignum.h:183-204 | The loop builds the shortest signed byte string of magnitude and sign, at most nine bytes. |
| `BigNum.SetUint64` | src/bignum.h:227-252 | The bytes built denote exactly the argument. |
| `BigNum.SetUint256` | src/bignum.h:254-280 | The bytes built from the 32 bytes of the argument denote exactly it. |
| `BigNum.GetUint` | src/bignum.h:212-225 | Gives the magnitude modulo the width of the result, for 64 and for 256 bits. |
| `BigNum.VchRoundTrip` | src/bignum.h:298-323 | Every integer, negative ones included, comes back from its byte vector. |
| `BigNum.VchIs` | src/bignum.h:311-323 | The byte vector is the magnitude, lowest byte first, with the sign in the top bit of the last byte. |
| `BigNum.BytesRoundTrip` | src/bignum.h:298-323 | A byte string comes back if and only if it is the shortest one for its number. |
| `Compact.CompactRoundTrip` | src/bignum.h:347-390 | Setting what was got gives the number cut off after the bytes of the mantissa, with its sign. |
| `Compact.CompactPrecision` | src/bignum.h:347-390 | The result has the same sign, is no larger in magnitude and differs by at most one part in 2^15. |
| `Compact.CompactIdempotent` | src/bignum.h:347-390 | It has the same compact form. |
| `Compact.WordRoundTrip` | src/bignum.h:347-390 | A 32-bit word comes back from setting and getting if and only if it is zero, or its mantissa is at least 0x8000 and no bit of it is shifted out. |
| `Compact.GetCompactExamples` | src/bignum.h:337-339 | The three examples of the source, as written. |
| `Compact.SetCompactExamples` | src/bignum.h:337-339 | And back. |
| `Compact.CompactMonotone` | src/bignum.h:366-390 | The compact form grows with the number. |
| `Compact.CompactIs` | src/bignum.h:366-390 | Byte count, mantissa and sign in the compact form, with the byte that the sign bit takes. |
| `LockedPages.Manager.LockRange` | src/allocators.h:58-78 | Afterwards every page's count is the number of live ranges that touch it, and exactly the pages with a count are locked. |
| `LockedPages.Manager.UnlockRange` | src/allocators.h:81-101 | The same after a matching unlock, in which no page without a count is met. |
| `LockedPages.Manager.LockedExactly` | src/allocators.h:58-101 | A page is locked if and only if a live range has a byte on it. |
| `LockedPages.Manager.GetLockedPageCount` | src/allocators.h:103-108 | The number of entries is the number of pages that the system holds locked. |
| `LockedPages.MaskRoundsDown` | src/allocators.h:54-64 | Masking with the complement of the page size minus one rounds down to a page. |
| `LockedPages.PowerOfTwoCheck` | src/allocators.h:53 | The check of the page size passes, among positive numbers, exactly for powers of two. |
| `LockedPages.WalkEnds` | src/allocators.h:65-77 | The loop over the pages ends if and only if the last page of the range is not the last page of the address space. |

## Left out

- `Select_` and `GetChance` of the address manager: floating point, and a loop that ends only with probability one.
- The overflow of the 32-bit id counter and of the attempt counter of the address manager.
- AddrMan.AddrMan.FromFile: loads into a fresh object, and only files whose list lengths agree with the counts written and with at most 256 buckets.
- AddrMan.AddrMan.SelectTried: the draws are arbitrary, so nothing is said about how likely an entry is to be chosen.
- Locks, logging, sockets, the message format and the classification of network addresses.
- The other unroll counts of Keccak and its 32-bit form except for interleaving and rotation; the interleaved table of round constants.
- Blake.Context.Close: the compression function, the initial values and the salt, which is always zero, are parameters.
- Jh.Context.Close: the compression function and the initial values are parameters, and the state is its 128 bytes as they are written out.
- Groestl, which buffers and pads in the same way.
- Merkle.Block.GetMerkleBranch: a cached tree that is no longer that of the transactions, and negative indexes, are not modelled.
- Locator.BlockLocator.GetDistanceBack: what a 32-bit count gives beyond the 41st place is undefined in the source; by `Locator.LocatorCountFits` no locator of up to 2^30 blocks that shares the genesis block gets there.
- StakeModifier.ComputeNextStakeModifier: the library sort is an insertion sort here, the case of a candidate missing from the block index cannot arise, and the debug output is left out.
- StakeChain.GetKernelStakeModifier: the two kinds of failure, which differ only in the log, are one.
- StakeChain.AddToBlockIndex: only the index and the modifier; chain trust, disk and best chain are not modelled, and the hash that sums the modifiers and the sums fixed for some heights are parameters.
- The test of the kernel hash against its target.
- Checkpoints.SyncCheckpoints.CheckSync: the test network, where it is always true.
- Resetting to hardened checkpoints, which deliberately moves back; sending and relaying of checkpoints.
- Checkpoints.SyncCheckpoints.Process: signature, disk, database and change of the main chain are given as outcomes.
- BigNum.SetInt64: gives the number that the object is set to as its result; the library's integers and its reading and writing of the byte format are definitions here.
- Base58.DecodeBase58: a C string, without a zero character inside; characters outside ASCII are in no class.
- The subclasses of the encoded data for addresses and secrets, and the clearing of memory.
- LockedPages.Manager.LockRange: counts are unbounded, failures of the system calls are ignored as in the source, and a range that reaches into the last page of the address space is excluded, since the loop would not end.
