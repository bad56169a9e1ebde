# Ominull endpoint agent: a verified model

The endpoint agent is a set of C headers under `agent/include`. This project models its four
algorithmic cores in Dafny and proves what each is for.

- **Compression** (`gzip_encode.h`). An LZ77 encoder with hash chains and fixed Huffman codes. The
  agent has no decoder, so `Deflate` and `Gzip` hold one, written from sections 3.2.5 and 3.2.6 of
  RFC 1951 and sections 2.3 and 8 of RFC 1952. The encoder is proved to be undone by it.
- **Ed25519 arithmetic** (`ed25519_verify.h`). Sixteen signed limbs modulo 2^255 - 19 and sixty-four
  digits modulo the group order L (section 5.1 of RFC 8032). Every step is tied to the number the
  limbs stand for, and every intermediate value is shown to fit int64.
- **Trust and enforcement** (`agent_trust.h`, `response_canonical.h`, and the replay cache and
  SHA-256 of `response_dispatcher.h`). State kept in files that are written one at a time. The
  properties hold over whole runs of heartbeats, grants, failed writes, stops, starts and re-pins.
- **Resumable scan** (`data_inventory_linux.h`, `data_inventory_core.h`). A depth-first walk cut by
  budgets and resumed from a cursor, and a verdict cache that must agree with reading the files.

## How to read it

| files | what they hold |
|---|---|
| `Bits`, `Arith`, `Limbs`, `Endian`, `TextLines` | numbers as bits, limbs and bytes; lines of words |
| `Crc32`, `Deflate`, `Gzip`, `BitWriter`, `HashChains`, `GzipEncode` | compression |
| `Field25519`, `Pack25519`, `Multiply25519`, `Point25519`, `Edwards25519`, `Ladder25519`, `ModL` | Ed25519 |
| `Paths`, `ScanTree`, `ScanWalk`, `VerdictCache`, `VerdictLoss`, `ScanState` | the scan |
| `Floors`, `TrustPin`, `TrustManifest`, `TrustAgent` | pinning and manifests |
| `Mesh`, `Enforcement`, `StateFile`, `EnforcementRun`, `PeersRun` | enforcement grants |
| `Replay`, `ReplayLine`, `ReplayRun`, `Canonical`, `CanonicalRead`, `Sha256`, `Sha256Constants`, `Sha256Words` | the replay cache, the signed bytes, hashing |

Code that changes things in place is a class or a method over arrays, proved against a function of
the old state; what the agent promises is then proved about that function. Protocols (pinning,
enforcement, the verdict cache) are state machines over events, with a theorem over every sequence
of events. A write is done and reported done, or not done and reported failed, or the agent stops
just before or just after it.

Signature checks are uninterpreted: an offer is judged by a predicate, a manifest names the one key it
verifies under, a grant comes with a finding. The clock, the write outcomes, the budgets and the
file system come in as parameters. Widths are explicit where they matter: bytes are 0..255, int64
range is asserted at each arithmetic step, 32-bit and 64-bit truncation is written out.

## Where the code does less than it says

Four properties turned out to hold only under a condition. Each has a lemma that says exactly when
it holds, and a concrete failing case.

- *The replay cache* (`agent/include/response_dispatcher.h:714-720`) says a grant that still verifies
  never finds its entry gone. The verifier's window is closed and the keep test strict, so at the
  second `expires_at + 60` the grant verifies and its line no longer guards: `ReplayRun.SecondUse`,
  `ReplayRun.AcceptedOnce`. And a line is read back word by word, so it guards both the id and the
  nonce if and only if both are words: `ReplayLine.GuardedExactly`. White space in the one can undo
  the other: the id `a` with the nonce `x y` is accepted again, as is the id `a b`
  (`ReplayRun.SpacedNonceAgain`, `ReplayRun.SpacedIdAgain`). What a line without line breaks guards,
  and until when, follows from its words: `ReplayLine.IdGuarded`, `ReplayLine.NonceGuarded`.
- *The verdict cache* (`agent/include/data_inventory_linux.h:953-954`) says a known secret is never
  dropped because a run ran out of budget. A store gets a mark its walk does not bear out in three
  ways: cut short, it keeps its old mark and loses the verdicts of files it did not reach; a git
  config refused for lack of budget is not noted as skipped; and a directory that is not entered
  does not keep the mark back. `VerdictLoss.FinishExact` gives the exact condition,
  `VerdictLoss.OverlookedIsMissed` what is then answered, and `VerdictLoss.SecretAtRisk`,
  `VerdictLoss.ConfigAtRisk` and `VerdictLoss.SubtreeAtRisk` runs that get there.
- *The state file* gives back a state if and only if its grant id has no white space and is not a
  lone dash: `StateFile.RoundTrip`. Without line breaks the id comes back as its first word
  (`StateFile.CutAtSpace`, `StateFile.DashIsLost`, `StateFile.SpaceIsLost`), and an id of white space
  only takes the isolation with it (`StateFile.BlankReleases`). What follows a line break is read as
  lines: the mesh slots come back as they were if and only if none of those is a slot
  (`StateFile.MeshSurvives`), or else a peer nobody ordered is quarantined (`StateFile.PeerPlanted`,
  `PeersRun.PlantedByIsolation`). The watermarks come back in any case: `StateFile.SeenSurvives`.
- *The mesh list* drops a quarantine exactly when it is full and does not know the peer, and releases
  only the first of two slots with the same address: `Mesh.FullListMisses`, `Mesh.ReleaseReaches`,
  `Mesh.RepeatedAddressStays`.

## Model

| member | source | states |
|---|---|---|
| `GzipEncode.Encode` | agent/include/gzip_encode.h:120-204 | for every input, the result is none exactly when the input is over 2^31 - 1 bytes or memory runs out; otherwise decoding it by RFC 1951 and RFC 1952 gives back exactly the input, it is at most the input plus an eighth plus 21 bytes, and it is the header and one block of the greedy tokens of the input |
| `GzipEncode.Fill` | agent/include/gzip_encode.h:139-203 | the whole member in the buffer decodes to the input, in at most the input plus an eighth plus 21 bytes |
| `GzipEncode.FillBlock` | agent/include/gzip_encode.h:141-196 | header and block leave room for the trailer in the buffer of length + length/8 + 64, so the overflow exit is never taken |
| `GzipEncode.PutBlock` | agent/include/gzip_encode.h:142-190 | the block's bits are those of tokens that expand to the input, in at most 3 + 9 * length + 7 bits, padded by fewer than 8 |
| `GzipEncode.PutTokens` | agent/include/gzip_encode.h:145-187 | the stream grows by tokens whose expansion is the whole input, and each is the one its position gets: the longest repeat of 3..258 bytes, and the nearest of those, that any of the 48 nearest positions of its hash within 32767 bytes gives, or else the byte |
| `GzipEncode.IndexRange` | agent/include/gzip_encode.h:177-181 | indexing the positions a match covers keeps every chain complete and every slot in the window fresh |
| `GzipEncode.PutTrailer` | agent/include/gzip_encode.h:197-201 | the trailer is the bitwise CRC-32 and the length, each little-endian, and what precedes it is untouched |
| `GzipEncode.Delivered` | agent/include/gzip_encode.h:139-203 | any bytes made of the header, the bits of tokens that expand to the input, padding and that trailer decode to the input |
| `HashChains.FindMatch` | agent/include/gzip_encode.h:148-169 | every candidate followed is an indexed position strictly before the last one and inside the window; unless the match is the longest possible, none of the 48 nearest positions of the hash in the window repeats more bytes, and no nearer one repeats as many |
| `HashChains.Index` | agent/include/gzip_encode.h:170-171 | after an insertion every entry is the last earlier position with its hash, and every link within the window is still in its ring slot: no slot that may be followed is stale or uninitialised |
| `HashChains.RingSlotsDiffer` | agent/include/gzip_encode.h:168-170 | two positions less than a window apart never share a ring slot |
| `HashChains.RepeatLength` | agent/include/gzip_encode.h:158-160 | the length of the longest repeat up to the limit |
| `BitWriter.GzBits.PutBits` | agent/include/gzip_encode.h:37-48 | appends exactly the low bits, least significant first, or sets overflow exactly when a whole byte has no room |
| `BitWriter.GzBits.PutCode` | agent/include/gzip_encode.h:51-56 | appends the code most significant bit first |
| `BitWriter.GzBits.PutSymbol` | agent/include/gzip_encode.h:58-67 | appends the fixed Huffman code of section 3.2.6 of RFC 1951 |
| `BitWriter.GzBits.PutMatch` | agent/include/gzip_encode.h:79-92 | appends the length and distance codes with their extra bits |
| `BitWriter.ReverseCode` | agent/include/gzip_encode.h:52-54 | the reversed code sent low bit first is the code sent high bit first |
| `BitWriter.FindLengthRow` | agent/include/gzip_encode.h:80-82 | the one row of the length table a length falls in |
| `BitWriter.FindDistRow` | agent/include/gzip_encode.h:86-88 | the one row of the distance table a distance falls in |
| `Deflate.InflateToken` | agent/include/gzip_encode.h:58-92 | the decoder reads each written token back and carries on after it |
| `Deflate.InflateFixedBlock` | agent/include/gzip_encode.h:142-188 | the decoder reads a whole fixed block of tokens back as their expansion |
| `Deflate.TokenCost` | agent/include/gzip_encode.h:58-92 | no token takes more than nine bits for each byte it stands for |
| `Deflate.TokensCost` | agent/include/gzip_encode.h:126-196 | nor does any sequence of tokens, which is why the buffer is large enough |
| `Deflate.LengthRule` | agent/include/gzip_encode.h:69-72 | the length table is that of section 3.2.5 of RFC 1951 by its rule: from 3 up in groups of four codes with one extra bit more each, without gap or overlap, and 258 by itself |
| `Deflate.DistanceRule` | agent/include/gzip_encode.h:73-77 | the distance table likewise: from 1 up to 32768 in groups of two |
| `Deflate.CodeRule` | agent/include/gzip_encode.h:58-67 | the fixed codes are those the rule of section 3.2.2 gives for the lengths of 24 symbols of 7 bits, 152 of 8 and 112 of 9 |
| `Gzip.MemberDecodes` | agent/include/gzip_encode.h:139-203 | a member with a right checksum and length decodes to what its block expands to |
| `Crc32.GzCrc32` | agent/include/gzip_encode.h:94-110 | the table-driven loop computes the bitwise CRC-32 of section 8 of RFC 1952 |
| `Crc32.TableEntry` | agent/include/gzip_encode.h:99-102 | a table entry is eight bitwise steps of its index |
| `Crc32.TableStep` | agent/include/gzip_encode.h:108-109 | eight bitwise steps are one table look-up and a shift |
| `Crc32.Polynomial` | agent/include/gzip_encode.h:94-110 | the constant is the polynomial of section 8 of RFC 1952 with its powers reversed, and the register starts with 32 ones |
| `Field25519.Carry` | agent/include/ed25519_verify.h:154-161 | the in-place loop is one carry pass, with no int64 overflow for limbs below 2^62 |
| `Field25519.CarryValue` | agent/include/ed25519_verify.h:154-161 | a carry pass keeps the number modulo 2^255 - 19 |
| `Field25519.FirstPass` | agent/include/ed25519_verify.h:175 | what one carry leaves of limbs below 2^62 |
| `Field25519.SecondPass` | agent/include/ed25519_verify.h:213 | what a second carry leaves: limb 0 within 38 of its range, the rest in [0, 2^16) |
| `Field25519.ThirdPass` | agent/include/ed25519_verify.h:175 | a third carry brings every limb into [0, 2^16) |
| `Pack25519.Canonicalise` | agent/include/ed25519_verify.h:173-187 | the limbs of the unique residue in [0, 2^255 - 19) |
| `Pack25519.SubtractModulus` | agent/include/ed25519_verify.h:177-185 | subtracts the modulus limb by limb; the borrow says whether it was larger |
| `Pack25519.ReduceOnce` | agent/include/ed25519_verify.h:176-187 | subtracts the modulus exactly when the number is not below it |
| `Pack25519.Pack` | agent/include/ed25519_verify.h:172-192 | the 32 bytes written are the unique residue of the limbs' number |
| `Pack25519.NotEqual` | agent/include/ed25519_verify.h:238-243 | decides whether two limb lists differ modulo 2^255 - 19 |
| `Pack25519.Select` | agent/include/ed25519_verify.h:163-170 | the masked, branch-free loop on int64 limbs swaps the two arrays exactly when the bit is one |
| `Pack25519.SelectLimb` | agent/include/ed25519_verify.h:166-168 | on the two's complement words of two limbs, the masked exclusive-ors exchange the limbs or leave them |
| `Pack25519.Masks` | agent/include/ed25519_verify.h:164-166 | the mask made from the bit is full for one and empty for zero |
| `Pack25519.MaskedSwap` | agent/include/ed25519_verify.h:166-168 | the exclusive-or steps swap with a full mask and do nothing with an empty one |
| `Multiply25519.WideProduct` | agent/include/ed25519_verify.h:209-210 | the 31 limbs are the full product, each within 16 * 2^52 |
| `Multiply25519.Fold` | agent/include/ed25519_verify.h:211-212 | folding the high limbs by 38 keeps the number modulo 2^255 - 19 and stays below 2^62 |
| `Multiply25519.Multiply` | agent/include/ed25519_verify.h:208-214 | for limbs below 2^26, the product modulo 2^255 - 19 with limbs in [-38, 2^16 + 38), also when the result overwrites a factor |
| `Multiply25519.Invert` | agent/include/ed25519_verify.h:218-226 | the 254 steps compute the power p - 2 |
| `Multiply25519.Power2523` | agent/include/ed25519_verify.h:228-236 | the 251 steps compute the power (p - 5) / 8 |
| `Multiply25519.InverseIsFermat` | agent/include/ed25519_verify.h:221-224 | the bits set by skipping steps 2 and 4 are those of p - 2 |
| `Multiply25519.RootIsExponent` | agent/include/ed25519_verify.h:231-234 | the bits set by skipping step 1 are those of (p - 5) / 8 |
| `Point25519.Add` | agent/include/ed25519_verify.h:269-277 | the addition formulas of section 5.1.4 of RFC 8032 on residues, also for doubling in place |
| `Edwards25519.TwiceD` | agent/include/ed25519_verify.h:31-32 | the constant of the formulas is twice d, and d is -121665/121666 modulo 2^255 - 19 |
| `Edwards25519.AddProjective` | agent/include/ed25519_verify.h:269-277 | for any two points the sum meets the addition law of section 5.1.4 of RFC 8032 with its denominators multiplied out, and xy = zt |
| `Edwards25519.AddIsSum` | agent/include/ed25519_verify.h:269-277 | coordinates that stand for two affine points are added to coordinates that stand for their sum by the curve's law, wherever its denominators have inverses |
| `Edwards25519.SumOnCurve` | agent/include/ed25519_verify.h:269-277 | the sum of two points of the curve -x^2 + y^2 = 1 + d x^2 y^2 is on the curve |
| `Edwards25519.IdentityStands` | agent/include/ed25519_verify.h:293-296 | the ladder starts from coordinates of the neutral point (0, 1) |
| `Ladder25519.ScalarMult` | agent/include/ed25519_verify.h:292-304 | for every 256-bit scalar s, p ends as the s-fold sum of the starting q, and q stays one step ahead of p |
| `Ladder25519.NextRung` | agent/include/ed25519_verify.h:298-302 | each rung doubles the multiple and adds the bit, keeping q - p |
| `Ladder25519.ScalarValue` | agent/include/ed25519_verify.h:297-298 | the bits taken from the top down make up the scalar's little-endian number |
| `ModL.Reduce` | agent/include/ed25519_verify.h:346-351 | for every 64 bytes, the first 32 become the least residue modulo L and the rest zero |
| `ModL.Reduce64` | agent/include/ed25519_verify.h:320-344 | the same for 64 digits below 2^22, with no int64 overflow |
| `ModL.ClearDigit` | agent/include/ed25519_verify.h:323-331 | one row subtracts a multiple of L that clears its digit and leaves the others small |
| `ModL.SubtractQuotient` | agent/include/ed25519_verify.h:333-338 | subtracts the estimated quotient; the last carry is the sign of the remainder |
| `ModL.RemainderBound` | agent/include/ed25519_verify.h:333-338 | the remainder lies strictly between -L and L, so the carry is 0 or -1 |
| `ModL.AddBack` | agent/include/ed25519_verify.h:339 | adds L back exactly when the carry is -1 |
| `ModL.WriteBytes` | agent/include/ed25519_verify.h:340-343 | the bytes written are the number, but for a multiple of 2^256 carried out |
| `Paths.PathCmp` | agent/include/data_inventory_core.h:633-646 | the sign is that of the component-wise order, and zero exactly for equal components |
| `Paths.Under` | agent/include/data_inventory_core.h:649-654 | decides whether one path string is the other or beneath it, for every pair of strings |
| `Paths.UnderIsPrefix` | agent/include/data_inventory_core.h:649-654 | on rendered paths that is exactly having the other's components as a prefix |
| `Paths.ComponentsOfRender` | agent/include/data_inventory_core.h:633-646 | a rendered path has the components it was rendered from |
| `Paths.PathsTransitive` | agent/include/data_inventory_core.h:631-646 | the order is transitive |
| `Paths.PathsEqual` | agent/include/data_inventory_core.h:631-646 | the order is antisymmetric and total |
| `Paths.WholeSubtreeBefore` | agent/include/data_inventory_linux.h:1405-1409 | a directory before the cursor and not above it has its whole subtree before the cursor, so skipping it unseen is safe |
| `ScanTree.StoresIncreasing` | agent/include/data_inventory_linux.h:1358-1438 | one uninterrupted walk reports its stores in strictly increasing path order |
| `ScanTree.RootsIncreasing` | agent/include/data_inventory_linux.h:1459-1489 | so does a walk over all roots, as none that counts lies beneath another |
| `ScanTree.StoresAre` | agent/include/data_inventory_linux.h:1358-1438 | a directory is a store of a walk if and only if it lies at the store depth below the root, or above it and holds a file or a git credential itself |
| `ScanTree.OneStoreEach` | agent/include/data_inventory_linux.h:1358-1438 | every regular file lies in exactly one store: its directory, or the one at the store depth above it |
| `ScanTree.RootStoresAre` | agent/include/data_inventory_linux.h:1459-1489 | the stores over all roots are exactly those below the roots that count |
| `ScanTree.KeptCovers` | agent/include/data_inventory_linux.h:1465-1470 | every root lies at or beneath one that counts |
| `ScanTree.CountsWithin48` | agent/include/data_inventory_linux.h:1248 | a store no more than 48 directories deep is counted in full, and nothing deeper is counted |
| `ScanWalk.Walk.OverBudget` | agent/include/data_inventory_linux.h:981-986 | stops a run at the file limit, and never changes why it stopped |
| `ScanWalk.Walk.WalkStoreDir` | agent/include/data_inventory_linux.h:1246-1286 | counts exactly the regular files down to depth 48 unless it stops at the file limit |
| `ScanWalk.Walk.FinishStore` | agent/include/data_inventory_linux.h:1292-1326 | a store cut short is reported only as a run's first, and none beyond the store limit |
| `ScanWalk.Walk.ShallowStore` | agent/include/data_inventory_linux.h:1369-1400 | a directory above store depth is reported exactly when it holds a file or this run's look at its git config finds a credential |
| `ScanWalk.Walk.Upper` | agent/include/data_inventory_linux.h:1358-1438 | reports, in order, the first of the stores due after the cursor: all of them unless a budget is used up |
| `ScanWalk.Walk.WalkRoots` | agent/include/data_inventory_linux.h:1459-1489 | the same over all roots |
| `ScanWalk.Nested` | agent/include/data_inventory_linux.h:1465-1470 | decides whether a root is beneath another or repeats an earlier one |
| `ScanWalk.NothingDue` | agent/include/data_inventory_linux.h:1405-1409 | nothing that is skipped was due |
| `ScanWalk.Run` | agent/include/data_inventory_linux.h:1796-1839 | a run reports a prefix of what is due; all of it when it completes, at least one store when it does not; it stops early only when a budget is used up, and leaves its last store as the cursor |
| `ScanWalk.Cycle` | agent/include/data_inventory_linux.h:1796-1839 | however budgets cut a cycle, its runs together report exactly the stores of one uninterrupted walk, each once and in path order, within one run per store plus one |
| `ScanWalk.EveryFileReported` | agent/include/data_inventory_linux.h:1796-1839 | once a cycle completes, the store of every regular file below a root that counts has been reported |
| `ScanWalk.CycleOverChanges` | agent/include/data_inventory_linux.h:1796-1839 | whatever files, directories and git credentials come and go between the runs of a cycle, no store is reported twice, they come in path order, each was met by a run, and once the cycle completes every store that all of its runs could meet is reported |
| `VerdictCache.AlwaysHonest` | agent/include/data_inventory_linux.h:927-979 | after any interleaving of file changes, runs, skips, refused git configs, unread directories, age-outs and saves in which no finish overlooks a file, a visit skips a file only if it cannot be read, and whatever it answers otherwise equals reading the file now |
| `VerdictCache.Honest` | agent/include/data_inventory_linux.h:944-978 | a cached answer, or zero for no entry, is what reading gives; so is what a skipped file keeps if it is unchanged |
| `VerdictCache.Keeps` | agent/include/data_inventory_linux.h:1844-1870 | every event keeps the saved state, the run's lines and the walk in progress right for every file unchanged since its store's mark |
| `VerdictCache.KeepsFinish` | agent/include/data_inventory_linux.h:1314-1324 | finishing a store, with a new mark or the old one, keeps that unless it overlooks a file |
| `VerdictCache.FinishRight` | agent/include/data_inventory_linux.h:1314-1324 | and even then, if what the walk leaves of each overlooked file is what reading it would give |
| `VerdictCache.KeepsSave` | agent/include/data_inventory_linux.h:1844-1870 | so does carrying over what the run did not visit, and ageing out once the cycle completes |
| `VerdictCache.WholeWalk` | agent/include/data_inventory_linux.h:1246-1286 | a walk that sees every file that was there when its run began and is refused no git config overlooks nothing |
| `VerdictCache.NotReadAgain` | agent/include/data_inventory_linux.h:944-950 | a file seen by a walk that skipped nothing and unchanged since its run began is answered from the saved state, rightly and without reading it |
| `VerdictCache.OthersKept` | agent/include/data_inventory_linux.h:1847-1870 | saving a run changes no answer about a store it did not report, unless the cycle completes without it |
| `VerdictLoss.FinishExact` | agent/include/data_inventory_linux.h:1292-1326 | a finish leaves the cache right, for every content of their size of the files the run has not read, if and only if every file it overlooks has no verdict to lose and reads the same whatever it holds; which files it overlooks is read off the saved state and the files' status |
| `VerdictLoss.OverlookedIsMissed` | agent/include/data_inventory_linux.h:944-950 | an overlooked file is answered at the next incremental visit with what the walk left, whatever is in it, and wrongly if it had a verdict |
| `VerdictLoss.SecretAtRisk` | agent/include/data_inventory_linux.h:1292-1324 | a run that gets there by being cut short before a file with a verdict |
| `VerdictLoss.ConfigAtRisk` | agent/include/data_inventory_linux.h:1228-1244 | a run that gets there by having no content budget left at a git config |
| `VerdictLoss.SubtreeAtRisk` | agent/include/data_inventory_linux.h:1192-1219 | a run that gets there by not entering a directory |
| `ScanState.Search` | agent/include/data_inventory_linux.h:419-429 | bisection over keys in path order finds the key or shows it is not there |
| `ScanState.FindMark` | agent/include/data_inventory_linux.h:419-429 | the mark the saved state has for a store, or zero |
| `ScanState.WasVisited` | agent/include/data_inventory_linux.h:1752-1762 | decides whether the run reported the store |
| `ScanState.FindVerdict` | agent/include/data_inventory_linux.h:431-441 | the entry the saved state has for a path, if any |
| `ScanState.FileContent` | agent/include/data_inventory_linux.h:927-979 | answers what the cache or the file says, and never spends more than the content budget |
| `ScanState.CarryMarks` | agent/include/data_inventory_linux.h:1847-1856 | keeps exactly the marks of stores not reported, and of this cycle once it completes |
| `ScanState.CarryVerdicts` | agent/include/data_inventory_linux.h:1857-1870 | keeps exactly the verdicts of stores not reported, and of this cycle once it completes |
| `Floors.FloorList.Insert` | agent/include/agent_trust.h:1125-1133 | in place: the key moves to the newest slot with its new floor, the oldest goes when there is no room |
| `Floors.FloorList.IsFloored` | agent/include/agent_trust.h:1116-1121 | whether a number is not above its key's floor |
| `Floors.InsertedTwice` | agent/include/agent_trust.h:1125-1133 | raising a key twice in a row is raising it once, so a floor may lag one manifest behind |
| `Floors.LastRemembered` | agent/include/agent_trust.h:1125-1133 | a key's floor is its last number while at most seven other keys came since |
| `Floors.RememberedExactly` | agent/include/agent_trust.h:1125-1133 | and it is known exactly as long as that |
| `TrustManifest.NumbersRise` | agent/include/agent_trust.h:1596-1630 | in every run of heartbeats, failed writes, stops, starts, re-pins and losses of a floored manifest file, the manifest numbers taken under one policy key strictly increase while at most seven other keys took one since that key last did |
| `TrustManifest.StepKeeps` | agent/include/agent_trust.h:1976-1987 | after every step the floors on disk and in memory hold everything taken, or all but the last with the means to recover it |
| `TrustManifest.StartRecovers` | agent/include/agent_trust.h:1168-1182 | a start recovers the floor of everything ever taken, wherever the agent stopped |
| `TrustManifest.AcceptedIsHigher` | agent/include/agent_trust.h:1602-1615 | what is accepted is above the last number taken under its key |
| `TrustManifest.AcceptKeeps` | agent/include/agent_trust.h:1616-1627 | the manifest before its floor: a stop in between leaves the floor one behind, never ahead |
| `TrustManifest.RepinKeeps` | agent/include/agent_trust.h:2289-2291 | a re-pin makes a recovered floor durable before the key that verified it goes |
| `TrustManifest.LossKeeps` | agent/include/agent_trust.h:1607-1611 | losing the manifest file once its number is in the floor file loses nothing |
| `TrustManifest.LossExact` | agent/include/agent_trust.h:1607-1611 | a lost manifest is taken again after a start if and only if its number was not in the floor file |
| `TrustPin.PinSafety` | agent/include/agent_trust.h:1255-1343 | in every run trust.epoch never falls, and a bundle in force is one the release key signed for this tenant at exactly the epoch on disk, above every epoch revoked before |
| `TrustPin.StepKeepsPin` | agent/include/agent_trust.h:1255-1276 | while a bundle is in force nothing but a re-pin changes the keys |
| `TrustPin.RepinRevokes` | agent/include/agent_trust.h:2292-2310 | once a re-pin wrote its epoch, the pin is out of force for good, even if it is still on disk |
| `TrustPin.RetryDoesNotClimb` | agent/include/agent_trust.h:2295-2305 | over any sequence of interrupted re-pins, stops and starts, the epoch is the old one or exactly one above the pin and not below the floor |
| `TrustPin.PinsExactly` | agent/include/agent_trust.h:1255-1343 | a host without keys, its writes done, pins an offer if and only if it is for the tenant `default`, at an epoch of at least 1 and not below the one on disk, and signed by the release key; any other leaves the pin alone |
| `TrustPin.FirstPin` | agent/include/agent_trust.h:1291-1295 | a new host pins a bundle at epoch 1 |
| `TrustPin.RepinReleases` | agent/include/agent_trust.h:2285-2316 | a re-pin whose writes are done removes the pin, and the host pins again at the epoch it left |
| `TrustPin.TakesExactly` | agent/include/agent_trust.h:1596-1630 | an agent, its writes done, stores, records and puts in force a manifest if and only if it is signed under the policy key in force, positive, above the one in force and above the number on record for the key |
| `TrustPin.StartTakes` | agent/include/agent_trust.h:1168-1182 | a start has in force the stored manifest exactly if it verifies |
| `TrustAgent.Context.constructor` | agent/include/agent_trust.h:1184-1215 | a start reads the floor, the pin, at most eight floors and the stored manifest, and from files such an agent left it is trusted again |
| `TrustAgent.Context.LoadManifest` | agent/include/agent_trust.h:1168-1182 | the stored manifest is taken when it verifies, and its floor raised in memory |
| `TrustAgent.Context.PinKeys` | agent/include/agent_trust.h:1255-1343 | the fields and files after an offer, for every outcome of the two writes |
| `TrustAgent.Context.WriteFloors` | agent/include/agent_trust.h:1983 | a recovered floor is clean again only once it is written |
| `TrustAgent.Context.RaiseFloor` | agent/include/agent_trust.h:1150-1162 | the next list is put in force only once it is written |
| `TrustAgent.Context.AcceptManifest` | agent/include/agent_trust.h:1596-1630 | the fields and files after a manifest, for every outcome of the two writes |
| `TrustAgent.Context.ProcessHeartbeat` | agent/include/agent_trust.h:1976-1987 | pin, then recovered floors, then a manifest only if those are durable; however the writes end, the pin in force stays signed and at the epoch on disk, keys in force stay, the epoch does not fall and numbers under each key rise |
| `TrustAgent.Context.Repin` | agent/include/agent_trust.h:2285-2316 | floors, epoch, pin in that order, a removal reported exactly when the pin is gone, and the files left trusted however the writes end |
| `PeersRun.ForgettingIsHarmless` | agent/include/agent_trust.h:1824-1935 | over every run of grants of any kind and id, failed writes, stops and starts in which the orders taken find room and no id written plants a slot, the quarantined peers and what each grant changes are those of an unbounded map that forgets nothing |
| `PeersRun.GrantRefines` | agent/include/agent_trust.h:1849-1922 | a mesh grant is taken by the list exactly when the map takes it; afterwards the list stands for the map if and only if a quarantine that was taken found room, and then with the same change; refused, early and isolation grants included |
| `PeersRun.PlantedByIsolation` | agent/include/agent_trust.h:1032-1060 | an isolation grant whose id is `x`, a line break and `mesh 10.0.0.9 1 5`, once written, has a start quarantine a peer that no order did |
| `Mesh.OrderRefines` | agent/include/agent_trust.h:1884-1922 | one order later than the watermark does to the list what it does to the map |
| `Mesh.FullListMisses` | agent/include/agent_trust.h:1885-1887 | a quarantine later than all before is in force if and only if the list knows the peer or has room; the map always takes it |
| `Mesh.ReleaseReaches` | agent/include/agent_trust.h:1812-1813 | a released peer stays quarantined if and only if a later slot of the same address is on |
| `Mesh.RepeatedAddressStays` | agent/include/agent_trust.h:1812-1813 | of two slots with one address a release reaches only the first |
| `Mesh.ForgottenKeeps` | agent/include/agent_trust.h:1915-1922 | swap-removal keeps exactly the slots that are not stale |
| `Mesh.ForgetSlots` | agent/include/agent_trust.h:1916-1922 | the in-place loop over the slots: those that are on, or were released at most 90000 seconds ago, stay |
| `Mesh.WriteSlot` | agent/include/agent_trust.h:1884-1892 | finds or makes the peer's slot and writes it unless it holds a later order |
| `Enforcement.Enforcer.ApplyGrant` | agent/include/agent_trust.h:1824-1935 | the state in force becomes the grant's outcome if that was saved and stays as it was otherwise; reports a change exactly when what is enforced changed |
| `EnforcementRun.RunOk` | agent/include/agent_trust.h:1824-1935 | in every run, whatever the grants' ids, both watermarks never decrease and stay within 60 seconds of the clock, in the file and in force alike |
| `EnforcementRun.RunGivesBack` | agent/include/agent_trust.h:1923-1927 | in every run in which the ids that are written to the file are clean, the state in force is what the file gives back |
| `EnforcementRun.GivesBackExactly` | agent/include/agent_trust.h:997-1064 | after any one grant it still is, if and only if the grant does not write its id or that is clean |
| `EnforcementRun.OutcomeMarked` | agent/include/agent_trust.h:1824-1935 | one grant, whatever its id and whatever state it meets, moves its own watermark up to its issue time, within the skew, and no other back |
| `EnforcementRun.FreshHost` | agent/include/agent_trust.h:1023-1031 | a host with no state file starts well formed |
| `EnforcementRun.NeverTwice` | agent/include/agent_trust.h:1837-1838 | a grant of any id whose outcome was written is never processed again, across any other grants, stops and starts |
| `EnforcementRun.OutcomeOk` | agent/include/agent_trust.h:1824-1935 | one grant keeps a well-formed state well formed |
| `EnforcementRun.LeavesAlone` | agent/include/agent_trust.h:1842-1858 | a grant that does not verify or isolates another endpoint leaves no trace; mesh and isolation do not touch each other |
| `EnforcementRun.LaterGrantDecides` | agent/include/agent_trust.h:1870-1914 | an owner's genuine grant later than any seen decides whether the host is isolated and with which exceptions: nothing earlier can silence it |
| `EnforcementRun.OnlyReleaseLifts` | agent/include/agent_trust.h:1871-1914 | an isolation is lifted only by a genuine release for this host in its window |
| `EnforcementRun.DetectorNeverWidens` | agent/include/agent_trust.h:1893-1897 | the detector's grant isolates a free host without exceptions of its own and leaves an isolation in force as it is |
| `EnforcementRun.DetectorIsolates` | agent/include/agent_trust.h:1893-1913 | a detector's grant for a free host, genuine, in its window, later than any seen and allowed, isolates it with the source `auto`, the grant's rules and no exceptions, and reports a change |
| `EnforcementRun.OrderDecides` | agent/include/agent_trust.h:1884-1922 | a mesh order, genuine, in its window and later than any seen: an allowed quarantine is in force if and only if the list of 64 knows the peer or has room, a release always, and no other peer is touched |
| `EnforcementRun.TakenExactly` | agent/include/agent_trust.h:1836-1881 | which grants leave a trace, in seconds: in the window from 60 before issue to 60 after expiry with an action of their kind, or out of it and issued at most 60 ahead; out of it, or not allowed, the watermark moves and nothing else |
| `EnforcementRun.ReportsChange` | agent/include/agent_trust.h:1883-1934 | a grant reports a change exactly when the isolation, its exceptions in force or the set of quarantined peers is no longer the same |
| `StateFile.RoundTrip` | agent/include/agent_trust.h:997-1064 | the file gives back the state written to it if and only if the grant id has no white space and is not a lone dash |
| `StateFile.DashIsLost` | agent/include/agent_trust.h:1049 | a lone dash as an id comes back empty, and everything else as it was |
| `StateFile.SpaceIsLost` | agent/include/agent_trust.h:1045 | the id `a b` comes back as `a`, and everything else as it was |
| `StateFile.CutAtSpace` | agent/include/agent_trust.h:1045-1049 | any id without a line break comes back as its first word, as none if that is a dash, and everything else as it was; an id of white space only loses the isolation |
| `StateFile.BlankReleases` | agent/include/agent_trust.h:1045-1049 | an isolation under the id of one space does not come back |
| `StateFile.MeshComesBack` | agent/include/agent_trust.h:1032-1060 | whatever the id, the mesh slots come back in order behind those that the lines of the id after its first line break read as, up to 64 |
| `StateFile.MeshSurvives` | agent/include/agent_trust.h:1032-1060 | so as they were if and only if those lines read as no slot |
| `StateFile.PeerPlanted` | agent/include/agent_trust.h:1032-1060 | the id `x`, a line break and `mesh 10.0.0.9 1 5` comes back with that peer quarantined |
| `StateFile.SeenSurvives` | agent/include/agent_trust.h:1050-1052 | both watermarks come back whatever the id is, line breaks included |
| `StateFile.LoadedHoldable` | agent/include/agent_trust.h:1023-1064 | any file at all loads as a state within the limits, with checked addresses and rules |
| `StateFile.LoadedClean` | agent/include/agent_trust.h:1023-1064 | no file at all loads such a grant id |
| `StateFile.LineTexts` | agent/include/agent_trust.h:997-1010 | the text of each line of the file |
| `TextLines.LinesOfText` | agent/include/agent_trust.h:1032-1036 | the text is read back line by line and word by word as it was written |
| `Replay.Cache.CheckAndRecord` | agent/include/response_dispatcher.h:807-878 | on the text file: accepts exactly a grant with an id that no line still kept reads back as, while there is room, and then holds the kept lines as they were and the new one |
| `ReplayRun.RefusedWhileKept` | agent/include/response_dispatcher.h:727-729 | in every run, once a grant whose id and nonce are words is accepted, that id and nonce are refused at every later time before its expiry plus 60 seconds, whatever else is presented |
| `ReplayRun.RefusedWhileGuarded` | agent/include/response_dispatcher.h:838-852 | for any id and nonce: while a line an accepted grant wrote reads back as one kept and matching, the attempt is refused |
| `ReplayLine.ReadsBack` | agent/include/response_dispatcher.h:841-863 | a grant whose id and nonce are words is one line and reads back as it was written |
| `ReplayLine.GuardedExactly` | agent/include/response_dispatcher.h:841-863 | for every id, nonce and expiry: until 60 seconds after the expiry a recorded grant guards its id and, if it has one, its nonce, if and only if both are words |
| `ReplayLine.ParsedWords` | agent/include/response_dispatcher.h:841 | a line is read as its first word, its second and the number at the front of its third |
| `ReplayLine.IdGuarded` | agent/include/response_dispatcher.h:841-863 | a recorded grant guards its id only if that is a word; with a nonce without line breaks it does if and only if, besides, the expiry its words read as is not over by 60 seconds, which is its own expiry when the nonce is a word |
| `ReplayLine.NonceGuarded` | agent/include/response_dispatcher.h:841-863 | and its nonce only if that is a word; without line breaks if and only if it is the second of the words written and the expiry they read as is not over by 60 seconds |
| `ReplayRun.SpacedIdAgain` | agent/include/response_dispatcher.h:841-863 | a grant with the id `a b` is accepted again at any time |
| `ReplayRun.SpacedNonceAgain` | agent/include/response_dispatcher.h:841-863 | a grant with the id `a` and the nonce `x y` is accepted again if and only if the clock is past its first minute, whatever its expiry |
| `ReplayRun.Bounded` | agent/include/response_dispatcher.h:846-850 | the file never holds more than 4096 lines, in runs of grants without line breaks |
| `ReplayRun.BoundedAnyway` | agent/include/response_dispatcher.h:846-850 | nor, with line breaks, more than 129 over that |
| `ReplayRun.NothingDropped` | agent/include/response_dispatcher.h:842-850 | a line that leaves the file no longer guarded anything |
| `ReplayRun.NewIsAccepted` | agent/include/response_dispatcher.h:838-870 | a grant whose id and nonce no line reads as is accepted and recorded while the file has fewer than 4096 lines |
| `ReplayRun.AcceptedOnce` | agent/include/response_dispatcher.h:618-621 | a grant of words accepted twice while it verifies was presented the second time at the last second of its window |
| `ReplayRun.SecondUse` | agent/include/response_dispatcher.h:714-729 | a second use is accepted if and only if no line of the first guards against it: for an id and nonce that are words, from expiry plus 60 seconds on, so within the window at that one second; without line breaks, if what the words read as does not match the grant or has expired by 60 seconds; without a nonce, always when the id is not a word |
| `Canonical.Injective` | agent/include/response_canonical.h:106-220 | two messages have equal bytes if and only if they are of the same kind with the same fields, hex digits up to case |
| `Canonical.LabelsApart` | agent/include/response_canonical.h:106-220 | V2 grants, V3 grants, proofs and manifests never share bytes |
| `Canonical.FieldCut` | agent/include/response_canonical.h:36-102 | a field's bytes determine it and where the next one starts |
| `CanonicalRead.ReadsBack` | agent/include/response_canonical.h:106-220 | a reader that takes the label and then each field in the order of the layout gets every field of the message back by name, hex digits in lower case |
| `Canonical.Encode` | agent/include/agent_trust.h:676-691 | writes a message's canonical bytes and their number, or returns 0 exactly when they do not fit |
| `Canonical.EncodeGrant` | agent/include/response_canonical.h:148-188 | the same for grants, and 0 for another version or a version 3 without a job |
| `Canonical.Buffer.WriteInt64` | agent/include/response_canonical.h:49-60 | appends the two's complement number big-endian, or marks overflow |
| `Canonical.Buffer.WriteBytes` | agent/include/response_canonical.h:62-73 | appends the length and the bytes, or marks overflow |
| `Canonical.Buffer.WriteHex` | agent/include/response_canonical.h:80-92 | appends the length and the digits in lower case |
| `Canonical.Buffer.WriteItems` | agent/include/response_canonical.h:94-100 | appends the count and each item |
| `Sha256.SumPieces` | agent/include/process_lineage_linux.h:543-569 | however a message is cut into updates, the digest is that of the whole |
| `Sha256.Sum` | agent/include/response_dispatcher.h:177-182 | the digest of section 6.2 of FIPS 180-4 |
| `Sha256.Context.Update` | agent/include/response_dispatcher.h:128-150 | after any update the whole blocks so far are compressed and the rest is in the buffer |
| `Sha256.PaddingRule` | agent/include/response_dispatcher.h:152-167 | the padded message is the message, a one bit, the fewest zeros that leave 64 bits of a block, and the length in bits |
| `Sha256.Context.Pad` | agent/include/response_dispatcher.h:152-167 | one block or two, the padding is that of section 5.1.1 of FIPS 180-4 |
| `Sha256.Context.Final` | agent/include/response_dispatcher.h:152-175 | the state folded over exactly the padded blocks, big-endian |
| `Sha256.Context.Transform` | agent/include/response_dispatcher.h:76-118 | the schedule array and the 64 rounds compute the compression of section 6.2.2 |
| `Sha256.ScheduleSum` | agent/include/response_dispatcher.h:95-99 | the schedule's terms may be added in the agent's order |
| `Sha256Constants.Cubes` | agent/include/response_dispatcher.h:77-86 | the round constants are the first 32 bits of the fractional parts of the cube roots of 2, 3, 5 to 311 |
| `Sha256Constants.Squares` | agent/include/response_dispatcher.h:120-125 | the initial words are those of the square roots of 2 to 19 |
| `Sha256Words.ChoiceBits` | agent/include/response_dispatcher.h:106 | bit by bit, the first word chooses between the other two |
| `Sha256Words.MajorityBits` | agent/include/response_dispatcher.h:109 | bit by bit, two of three decide |
| `Sha256Words.Sigma0Bits` | agent/include/response_dispatcher.h:96 | each bit is the parity of the bits 7 and 18 places up and around and 3 places up |
| `Sha256Words.Sigma1Bits` | agent/include/response_dispatcher.h:97 | likewise 17, 19 and 10 |
| `Sha256Words.BigSigma0Bits` | agent/include/response_dispatcher.h:108 | likewise 2, 13 and 22, all around |
| `Sha256Words.BigSigma1Bits` | agent/include/response_dispatcher.h:105 | likewise 6, 11 and 25 |

## Left out

- GzipEncode.Encode: null arguments are excluded by the types, and the static checksum table is rebuilt on each call.
- Deflate.InflateFixedBlock: the decoder reads fixed Huffman blocks, the only kind the encoder writes; stored and dynamic blocks are refused.
- Ladder25519.ScalarMult: that the curve's law is associative, and that its denominators are never zero because d is not a square, are hypotheses, not proved; that the formulas compute the law and stay on the curve is `Edwards25519`.
- Point decompression, SHA-512 and the composition of signing and verifying in `ed25519_verify.h`, and constant-time behaviour.
- ScanWalk.Run: the time budget is not modelled, as no progress follows from it; sorting of entries and roots is taken as done, and roots are component lists.
- ScanWalk.Walk.WalkStoreDir: the tree holds what listing a directory gives; one that cannot be listed has no entries, and a listing cut off has fewer.
- VerdictCache.AlwaysHonest: policy and rules are fixed, no directory is moved, every change moves a file's ctime to the present; content rules are an uninterpreted function of the bytes, for a git config those of them that are reported.
- VerdictCache.Keeps: the run and its saved state are values, not buffers of text lines; out-of-memory and full output buffers are not modelled.
- ScanState.FileContent: a read delivers as many bytes as were wanted.
- The text form of the scan's state file, its JSON report, and the candidate and secret heuristics.
- TrustManifest.NumbersRise: a manifest verifies under one policy key, its file is not lost before its number is in the floor file, and a re-pin runs while the agent does not.
- TrustPin.PinSafety: the remembered hash of a failed offer is left out, as it only skips a check that would fail again; mismatch flags, log messages and the untrusted-directory mode are not modelled.
- EnforcementRun.RunOk: the one-time adoption of the hub's view and the local release are not events; a host may start from any well-formed state.
- Enforcement.Enforcer.ApplyGrant: parsing of payloads is left out; what it finds for this host comes in as the action, already checked.
- StateFile.RoundTrip: lines are read as words, without the field widths of the scan formats, which no field exceeds, and their tolerance of a missing first space.
- Replay.Cache.CheckAndRecord: a rewrite that starts also completes; lines of 256 characters and more, which no grant fits, are not split; a number of more than 64 bits is read as it is, not clamped; the variant for Windows files is not modelled.
- PeersRun.ForgettingIsHarmless: orders that are taken find room and ids that are written plant no slot; that both are needed is `PeersRun.GrantRefines` and `PeersRun.PlantedByIsolation`. A planted slot that repeats what the list forgot would do no harm.
- ReplayLine.IdGuarded: what a nonce with line breaks makes of a word id depends on each of its lines and is left at `ReplayLine.GuardedExactly` and `ReplayRun.RefusedWhileGuarded`.
- ScanWalk.Cycle: one tree for all runs, so each look at a git config finds the same; a look depends on the content budget and the cache, and what holds when it differs is `ScanWalk.CycleOverChanges`. Within one run the tree is fixed.
- ReplayRun.Bounded: an id or nonce with line breaks adds as many lines as it has; the bound for those is `ReplayRun.BoundedAnyway`.
- Canonical.Injective: encodings of 2^32 bytes and more, whose length fields would wrap, are excluded.
- Sha256.SumPieces: the reading loop's size limit and change detection are left out.
- Routine release keys, host authority, capability ceilings, script and terminal sessions, inventory and forensic collectors, network and process code, base64 and DER: easy members or foreign calls next to the above.
