# hnsd light client, verified model

A Dafny model of the state and arithmetic at the centre of the hnsd light
client (`reference/hnsd-reference/src`), with proofs of what it promises.

| file | what it models |
|---|---|
| `Probing.dfy`, `Bits.dfy`, `HashTable.dfy` | the open-addressing hash table with triangular probing, tombstones and the in-place kick-out resize |
| `RadixProof.dfy`, `RadixReader.dfy` | the radix-tree proof verifier, with trees as the reference, and the reader of proofs |
| `Limbs.dfy`, `Bignum.dfy` | the 512-bit bignum, limb by limb, outputs aliasing inputs |
| `Work.dfy`, `Retarget.dfy` | compact targets, proof of work, difficulty retargeting |
| `Headers.dfy`, `ChainRules.dfy`, `Chain.dfy` | the header chain: rules, forks, reorganisation, orphans |
| `DnsName.dfy`, `DnsPrint.dfy`, `DnsRoundTrip.dfy`, `DnsTruncate.dfy` | DNS names with compression, and message truncation |
| `Field.dfy`, `FieldMul.dfy`, `FieldReduce.dfy`, `FieldInverse.dfy` | P-256 field arithmetic on 64-bit digits |
| `Noise.dfy`, `Transport.dfy`, `Delivery.dfy`, `Conversation.dfy`, `Brontide.dfy` | the encrypted transport: handshake, key rotation, frames, stream reassembly, traffic both ways |
| `RspList.dfy`, `Worker.dfy`, `WorkerLists.dfy` | the resolver worker: its linked lists, its threads as atomic steps, and the lists under those steps |
| `Arith.dfy`, `Bytes.dfy` | integer and byte-string facts used by the rest |

Code that updates state is modelled by methods over arrays and object fields;
each is proved against a function, and what the source promises is proved about
those functions or as invariants.  Parameters stand for what the program takes
from outside: the hash functions and the other primitives of the transport
(with the laws in `Noise.Lawful` and `RadixProof.CollisionFree`), the current
time, the callbacks, and libunbound, which may answer any outstanding request at
any time.

Places where the code and what it is meant to do part, each with its exact
condition:

- A table of 2^31 live buckets cannot grow: setting one more key displaces another
  (`HashTable.HashTable.Set`, `HashTable.Overfull`).
- A compact target with an exponent above 34 has its shift reduced modulo 32, so
  some oversized targets are accepted (`Work.OverflowRefused`,
  `Work.OverflowAccepted`).
- The proof of the zero target is cut to zero (`Work.ProofExact`).
- A name whose chain of pointers has more than ten hops is printed but not
  parsed back (`DnsRoundTrip.RoundTrip`, `DnsRoundTrip.TooManyHops`).
- The printer accepts some names that are not valid, and none of them is parsed back:
  names with a leading dot (`DnsRoundTrip.PackAccepts`, `DnsRoundTrip.PackExact`),
  and, with a compression map, names it has refused before: a refused name leaves its
  first labels in the message and texts in the map (`DnsRoundTrip.RefusedMisleads`).
  Valid names are never affected: each is parsed back exactly when its chain has at
  most ten hops (`DnsRoundTrip.RoundTrip`).
- A kept record whose name points past the cut cannot be read from the truncated
  message (`DnsTruncate.TruncatedReads`, `DnsTruncate.PointsPastCut`), and one whose
  name is spelled by a count that changes may be read as another name or not at all
  (`DnsTruncate.PointsAtCount`).
- A handshake key that cannot be used ends the process at an assertion, in act three
  one that was authenticated (`Noise.ActOneAborts`, `Noise.ActThreeAborts`,
  `Noise.AbortsMet`); the model returns a status of its own there.
- When a frame that arrived in pieces closes the connection, the buffer position
  left behind depends on how it was cut (`Delivery.ChunkExact`,
  `Delivery.CutFrameDiffers`).

Proofs that need no collision say so for the finite set of strings actually
hashed, so their hypotheses can be met by a real hash function.

## Model

| member | source | states |
|---|---|---|
| Probing.ProbesDistinct | reference/hnsd-reference/src/map.c:239-254 | for a power-of-two size the triangular probe meets different buckets at different steps |
| Probing.ProbeCovers | reference/hnsd-reference/src/map.c:239-254 | the probe meets every bucket within one round, before it can return to its start |
| Probing.ProbeReturns | reference/hnsd-reference/src/map.c:239-254 | the probe is back at its start after 2n - 1 steps, where the loops that find neither the key nor an empty bucket stop |
| HashTable.EmptyOnProbe | reference/hnsd-reference/src/map.c:325-332 | with fewer occupied buckets than buckets, the probe meets an empty bucket |
| HashTable.PutBucket | reference/hnsd-reference/src/map.c:439-470 | writing a key at the bucket where its probe stopped adds exactly that binding and keeps every other key reachable |
| HashTable.DeleteBucket | reference/hnsd-reference/src/map.c:473-479 | a tombstone removes exactly one binding and keeps every other key reachable |
| HashTable.TakeOut | reference/hnsd-reference/src/map.c:305-323 | taking an element out to be rehashed leaves it waiting and every other binding where it was |
| HashTable.PutDown | reference/hnsd-reference/src/map.c:325-355 | putting the carried element down keeps all bindings: each is at its new home, still waiting, or carried |
| HashTable.HashTable.Lookup | reference/hnsd-reference/src/map.c:234-255 | the bucket that holds the key, or the bucket count exactly when the key is absent |
| HashTable.HashTable.Get | reference/hnsd-reference/src/map.c:513-524 | the value a mathematical map would return |
| HashTable.HashTable.Has | reference/hnsd-reference/src/map.c:526-537 | membership in the mathematical map |
| HashTable.HashTable.Resize | reference/hnsd-reference/src/map.c:257-383 | keeps the contents; if the request can hold them the table has the rounded size and no tombstones, otherwise nothing changes |
| HashTable.HashTable.Rehash | reference/hnsd-reference/src/map.c:257-383 | the in-place rebuild keeps the contents exactly and leaves only live buckets occupied |
| HashTable.KickOut | reference/hnsd-reference/src/map.c:305-360 | moving every old bucket, each kick-out chain included, ends with every binding at its new place and nothing waiting |
| HashTable.HashTable.Put | reference/hnsd-reference/src/map.c:385-471 | for any table: finds or makes the one bucket of the key; no other binding changes, except that a put of an absent key in a table of 2^31 live buckets displaces the key at its home bucket and returns as if it had been present |
| HashTable.FindSite | reference/hnsd-reference/src/map.c:414-437 | the insertion site, also in a table without an empty bucket: the bucket of the key if present, otherwise a reachable free bucket, otherwise (all live) the home bucket |
| HashTable.RequestRoom | reference/hnsd-reference/src/map.c:389-403 | the resize that a full load asks for makes room below 2^31 buckets; at 2^31 the request for one more wraps and changes nothing, and the sweep happens only if it helps |
| HashTable.FullTable | reference/hnsd-reference/src/map.c:385-471 | the table is all live exactly when it holds as many keys as buckets |
| HashTable.ReplaceBucket | reference/hnsd-reference/src/map.c:466-468 | overwriting the home bucket of an absent key replaces one key by the other and keeps the rest reachable |
| HashTable.HashTable.Set | reference/hnsd-reference/src/map.c:500-511 | agrees with a map if and only if the key is present or fewer than 2^31 keys are bound; otherwise exactly the displaced key is lost |
| HashTable.HashTable.Delete | reference/hnsd-reference/src/map.c:473-479 | the binding at the given live bucket disappears, tombstones and empty buckets are left alone |
| HashTable.HashTable.Del | reference/hnsd-reference/src/map.c:539-552 | contents without the key, and whether it was there |
| HashTable.HashTable.Reset | reference/hnsd-reference/src/map.c:223-232 | contents empty, arrays kept |
| HashTable.Run | reference/hnsd-reference/src/map.c:234-552 | every history of set, get, has and del calls on a fresh table, however long, gets the answers of a mathematical map as long as no new key is set while 2^31 are bound |
| HashTable.Do | reference/hnsd-reference/src/map.c:234-552 | one operation answers and changes the table as a map would if and only if it is not such a set |
| HashTable.ShortFits | reference/hnsd-reference/src/map.c:234-552 | no history of at most 2^31 operations contains such a set |
| HashTable.Overfull | reference/hnsd-reference/src/map.c:439-470 | with any hash, 2^31 + 1 different keys make the table forget one of them |
| Bits.RoundUpLeast | reference/hnsd-reference/src/map.h:66-74 | the bit-smearing macro gives the least power of two not below its argument, for arguments up to 2^31 |
| HashTable.SameSize | reference/hnsd-reference/src/map.h:66-74 | asking a resize for one bucket less keeps the size |
| HashTable.NextSize | reference/hnsd-reference/src/map.h:66-74 | asking a resize for one bucket more doubles the table, or makes the first four buckets |
| RadixProof.PreimageInjective | reference/hnsd-reference/src/proof-radix.c:251-305 | tagged preimages (leaf, inner node without and with a prefix) determine the node they encode |
| RadixProof.FreeIsFaithful | reference/hnsd-reference/src/proof-radix.c:251-305 | if the hash does not collide on the strings actually hashed, equal node digests stand for equal nodes |
| RadixProof.HasPrefix | reference/hnsd-reference/src/proof-radix.c:307-335 | the comparison loop accepts exactly when the whole prefix matches the key at that depth within 256 bits |
| RadixProof.OnPathExact | reference/hnsd-reference/src/proof-radix.c:307-335 | a prefix is on the path exactly when it is empty, or fits the key and agrees with it bit for bit |
| Bytes.BitsOfByte | reference/hnsd-reference/src/proof-radix.c:17-17 | the bits of a byte, most significant first, make up the byte |
| RadixProof.NamestateRead | reference/hnsd-reference/src/proof-radix.c:337-368 | a name state written out as name size, name, resource size low byte first, resource and anything more gives that resource |
| RadixProof.NamestateExact | reference/hnsd-reference/src/proof-radix.c:337-368 | a resource is read exactly from the values that were written with it |
| RadixProof.ClimbUp | reference/hnsd-reference/src/proof-radix.c:431-476 | one node up keeps the path as good as the whole, or shows at which node it fails |
| RadixProof.Climb | reference/hnsd-reference/src/proof-radix.c:431-476 | the bottom-up loop succeeds exactly when the path follows the key down from the root to the starting depth, and computes the digest at the top; otherwise the code says which node is too long or off the path, or that the top is below the root |
| RadixProof.Verify | reference/hnsd-reference/src/proof-radix.c:337-482 | Present(data) exactly when the proof is accepted and its value holds the resource data behind a name, sizes low byte first; BadEncoding exactly when an accepted value has no such form; Absent, the codes for same key, same path and a wrong digest exactly when they apply |
| RadixProof.LookupStores | reference/hnsd-reference/src/proof-radix.c:251-305 | in a tree whose keys agree with their positions, looking a key up finds a value exactly when the tree stores it |
| RadixProof.Soundness | reference/hnsd-reference/src/proof-radix.c:370-482 | a proof accepted against the digest of a tree makes exactly the claim of looking the key up in that tree |
| RadixProof.PathsAgree | reference/hnsd-reference/src/proof-radix.c:431-476 | two paths with the same digest at the top make the same claim, by induction from the root |
| RadixProof.Agreement | reference/hnsd-reference/src/proof-radix.c:370-482 | any two proofs accepted for one root and key agree on presence and on the value |
| RadixProof.Completeness | reference/hnsd-reference/src/proof-radix.c:370-482 | for every tree and key the honest proof is accepted and claims the lookup of that key |
| RadixReader.Read | reference/hnsd-reference/src/proof-radix.c:113-244 | reads a proof field by field as specified, or fails |
| RadixReader.ReadDecoded | reference/hnsd-reference/src/proof-radix.c:113-244 | every proof that is read has the shape the verifier asserts, and lies within the bytes given |
| RadixReader.ReadWritten | reference/hnsd-reference/src/proof-radix.c:113-244 | every proof of that shape is read back from its wire form, whatever follows it |
| Bignum.Init | reference/hnsd-reference/src/bn.c:22-29 | the value zero |
| Bignum.FromInt | reference/hnsd-reference/src/bn.c:31-39 | the value of a 64-bit number |
| Bignum.Assign | reference/hnsd-reference/src/bn.c:538-546 | a copy of the source as it was |
| Bignum.Add | reference/hnsd-reference/src/bn.c:214-229 | the sum modulo 2^512, also when the output is an operand |
| Bignum.Sub | reference/hnsd-reference/src/bn.c:231-254 | the difference modulo 2^512, also when the output is an operand |
| Bignum.Inc | reference/hnsd-reference/src/bn.c:196-212 | the successor modulo 2^512 |
| Bignum.Mul | reference/hnsd-reference/src/bn.c:256-289 | the product modulo 2^512, also when the output is an operand |
| Bignum.RowsValue | reference/hnsd-reference/src/bn.c:256-289 | the schoolbook rows add up to the product |
| Bignum.DivStep | reference/hnsd-reference/src/bn.c:332-350 | one step of the second loop keeps dividend = remainder + quotient * divisor, whether it subtracts or not |
| Bignum.DivStart | reference/hnsd-reference/src/bn.c:303-327 | after the doubling loop, with or without the overflow exit, the remainder is below twice the shifted divisor |
| Bignum.AlignDivisor | reference/hnsd-reference/src/bn.c:303-327 | the doubling loop ends, and establishes the division invariant on both exits |
| Bignum.Subtract | reference/hnsd-reference/src/bn.c:332-350 | the second loop ends with remainder below the divisor |
| Bignum.Div | reference/hnsd-reference/src/bn.c:291-353 | floor(a / b) for every nonzero b, also when c is a or b |
| Bignum.OrInto | reference/hnsd-reference/src/bn.c:443-452 | bitwise or of the values, also when the output is an operand |
| Bignum.OrValue | reference/hnsd-reference/src/bn.c:443-452 | limb-wise or is the bitwise or of the whole numbers |
| Bignum.Cmp | reference/hnsd-reference/src/bn.c:465-484 | the sign of the difference |
| Bignum.IsZero | reference/hnsd-reference/src/bn.c:486-497 | zero test of the value |
| Bignum.LshiftWord | reference/hnsd-reference/src/bn.c:562-576 | multiplication by a power of the limb base, modulo 2^512 |
| Bignum.LshiftOneBit | reference/hnsd-reference/src/bn.c:578-589 | doubling modulo 2^512, exact when the top bit is clear |
| Bignum.RshiftOneBit | reference/hnsd-reference/src/bn.c:591-602 | halving |
| Work.FromArray | reference/hnsd-reference/src/bn.c:129-145 | the number in 32 big-endian bytes |
| Work.ToArray | reference/hnsd-reference/src/bn.c:147-161 | the low 256 bits as 32 big-endian bytes |
| Work.Fill | reference/hnsd-reference/src/header.c:96-107 | writes the shifted mantissa from the low end; fails exactly when the value does not fit 32 bytes |
| Work.ToTarget | reference/hnsd-reference/src/header.c:71-108 | succeeds exactly on the compact values the decoder accepts, and yields their target |
| Work.DecodeFields | reference/hnsd-reference/src/header.c:71-108 | field by field: no target for zero or a sign, and otherwise the mantissa times 256^(exponent - 3), rounded down, if it fits, for exponents up to 34 |
| Work.ToBits | reference/hnsd-reference/src/header.c:110-156 | the compact encoding of the number in the bytes |
| Work.RoundTrip | reference/hnsd-reference/src/header.c:71-156 | decoding the encoding of any nonzero 256-bit target succeeds and gives the truncated target |
| Work.TruncLowers | reference/hnsd-reference/src/header.c:110-156 | truncation only lowers a target, by less than its dropped bytes, keeps at least its two leading bytes, and never gives zero |
| Work.TruncMono | reference/hnsd-reference/src/header.c:110-156 | truncation is monotone |
| Work.EncodeCanonical | reference/hnsd-reference/src/header.c:110-156 | every encoding is canonical |
| Work.CanonicalRoundTrip | reference/hnsd-reference/src/header.c:71-156 | canonical compact values survive decoding and encoding unchanged |
| Work.OverflowRefused | reference/hnsd-reference/src/header.c:71-108 | the decoder agrees with full-width decoding exactly when the exponent is at most 34, the mantissa is zero, or the exponent is 2 or 1 modulo 32 and the mantissa at least 2^8 or 2^16 |
| Work.OverflowAccepted | reference/hnsd-reference/src/header.c:88-94 | 0x23000001 decodes to 1 although its value needs 257 bits: the shift is reduced modulo 32 |
| Work.ProofExact | reference/hnsd-reference/src/header.c:158-179 | the 256-bit proof is floor(2^256 / (target + 1)) exactly when the target is not zero |
| Work.GetProof | reference/hnsd-reference/src/header.c:158-179 | fails exactly when the bits do not decode, and otherwise computes the proof through the bignum |
| Work.CalcWork | reference/hnsd-reference/src/header.c:181-201 | parent work plus proof, modulo 2^256 |
| Chain.WorkIsSum | reference/hnsd-reference/src/header.c:181-201 | in every chain the work of a stored header is the sum of the proofs on its branch, modulo 2^256 |
| Chain.VerifyPow | reference/hnsd-reference/src/header.c:422-437 | success exactly when the bits decode and the hash is at most the target, and otherwise the code for the one that fails |
| Chain.FirstDifference | reference/hnsd-reference/src/header.c:433-434 | byte-wise comparison of equal-length strings is comparison of the numbers they encode |
| Retarget.RetargetWindow | reference/hnsd-reference/src/chain.c:387-448 | the bignum computation gives the specified bits for any works and times |
| Retarget.SignedDifference | reference/hnsd-reference/src/chain.c:414-414 | the difference of two times less than 2^63 apart, and in any case modulo 2^64 |
| Retarget.ClampedNearest | reference/hnsd-reference/src/chain.c:416-420 | the time used is the nearest to the actual one between a quarter and four times the intended one |
| Retarget.ScaledIs | reference/hnsd-reference/src/chain.c:409-424 | the difference of work is scaled by 600 seconds over the time used, rounded down |
| Retarget.RetargetExact | reference/hnsd-reference/src/chain.c:387-448 | with work not decreasing, no step wraps: the bits are those of floor(2^256 / x) - 1, or the limit when x is zero or that is above the limit |
| Retarget.RetargetWraps | reference/hnsd-reference/src/chain.c:387-448 | with work decreasing, the difference wraps and the bits are those of the limit |
| Retarget.RetargetSound | reference/hnsd-reference/src/chain.c:387-448 | for any works and times the bits decode to a target between 1 and the limit; exact when work does not decrease, the limit when it does |
| ChainRules.CollectTimes | reference/hnsd-reference/src/chain.c:341-349 | the times of up to eleven headers, following parents |
| ChainRules.TimesAre | reference/hnsd-reference/src/chain.c:341-349 | they are those of the header and of the ones below it on its branch, as far as there are any |
| ChainRules.Sorted | reference/hnsd-reference/src/chain.c:351-351 | the sort used for the median: ascending, and a permutation |
| ChainRules.GetMtp | reference/hnsd-reference/src/chain.c:334-355 | the middle of up to eleven times: one of them, with at most half of them below it and fewer than half above |
| ChainRules.MedianInMiddle | reference/hnsd-reference/src/chain.c:334-355 | the element picked from the sorted times is that middle |
| ChainRules.Middle | reference/hnsd-reference/src/chain.c:364-385 | the swaps pick, of three headers, the one with the median time; on equal times the one that is stated |
| ChainRules.SuitableBlock | reference/hnsd-reference/src/chain.c:364-385 | of the ancestors at heights n - 2, n - 1 and n, the one with the median time |
| ChainRules.OneSuitable | reference/hnsd-reference/src/chain.c:364-385 | there is only one such header |
| ChainRules.GetAncestor | reference/hnsd-reference/src/chain.c:225-242 | the ancestor at the given height |
| ChainRules.GetTarget | reference/hnsd-reference/src/chain.c:450-483 | the bits of the limit below height 146; otherwise the retargeting between the two headers of median time, one of the last three on the branch and one of the three 144 below |
| ChainRules.NextBitsRequired | reference/hnsd-reference/src/chain.c:450-483 | those bits, for any two headers with the median times of these threes |
| ChainRules.FindFork | reference/hnsd-reference/src/chain.c:485-510 | the highest common ancestor of the tip and the competitor, for branches of any lengths; it always exists |
| Headers.AncStep | reference/hnsd-reference/src/chain.c:225-242 | the parent of the ancestor at height n is the ancestor at n - 1 |
| Headers.AncAnc | reference/hnsd-reference/src/chain.c:225-242 | an ancestor of an ancestor is the ancestor |
| Headers.AncGrow | reference/hnsd-reference/src/chain.c:680-754 | storing a new header changes no ancestor of a stored one |
| Headers.LinkedGrow | reference/hnsd-reference/src/chain.c:680-754 | storing a header above a stored parent keeps the tree linked |
| Chain.Disconnected | reference/hnsd-reference/src/chain.c:525-543 | the headers from the old tip down to the fork |
| Chain.Connected | reference/hnsd-reference/src/chain.c:545-560 | the headers from the fork up to the competitor, lowest first |
| Chain.Reorganized | reference/hnsd-reference/src/chain.c:562-573 | deleting the old branch and entering the new one leaves, below the competitor, exactly its ancestors by height |
| Chain.HeaderChain.constructor | reference/hnsd-reference/src/chain.c:95-129 | a chain of the genesis block satisfies all invariants |
| Chain.HeaderChain.Reorganize | reference/hnsd-reference/src/chain.c:512-574 | heights then holds the competitor's ancestors at exactly the heights below it, for longer and shorter branches |
| Chain.HeaderChain.Save | reference/hnsd-reference/src/chain.c:726-754 | the header becomes the tip, and the main chain invariant holds for it |
| Chain.HeaderChain.Place | reference/hnsd-reference/src/chain.c:695-721 | the header is stored; it becomes the tip exactly when it has more work |
| Chain.HeaderChain.Insert | reference/hnsd-reference/src/chain.c:680-724 | refused with the right code and nothing changed, or stored with height and work filled in |
| Chain.HeaderChain.ResolveOrphan | reference/hnsd-reference/src/chain.c:212-223 | takes out the orphan indexed under the hash; the index shrinks |
| Chain.HeaderChain.ResolveOrphans | reference/hnsd-reference/src/chain.c:649-671 | terminates, keeps the invariants at every exit, loses no stored header and never lowers the tip's work; an orphan indexed below a header that is stored is itself stored, unless the rules refuse it, whose code is then returned |
| Chain.HeaderChain.AddOrphan | reference/hnsd-reference/src/chain.c:622-647 | the orphan is kept and indexed, after clearing both maps if more than 10000 are held |
| Chain.HeaderChain.Connect | reference/hnsd-reference/src/chain.c:649-671 | a header with a stored parent is refused with its code and nothing changed, or stored with the orphans that follow |
| Chain.HeaderChain.Add | reference/hnsd-reference/src/chain.c:576-678 | the invariants hold at every return; a new header is stored exactly when it is not ahead of the clock, no orphan, has its work, a stored parent, a time past the median and the required bits; otherwise nothing stored changes and the code says what is wrong with it |
| Chain.Adopt | reference/hnsd-reference/src/chain.c:649-671 | storing a header that is no orphan leaves at most its own hash indexed as a missing parent |
| Chain.Resolved | reference/hnsd-reference/src/chain.c:212-223 | taking out the orphan indexed under a hash restores the orphan invariant |
| Chain.MainChain | reference/hnsd-reference/src/chain.c:512-574 | heights has exactly the keys 0 to the tip's height and is the chain of parents from the tip to the genesis block |
| Chain.CoreTip | reference/hnsd-reference/src/chain.c:726-754 | a header with more work becomes the best tip, over any competitor |
| Chain.WorkGrows | reference/hnsd-reference/src/chain.c:695-696 | while total work fits 256 bits, an ancestor has no more work |
| Chain.NextBitsSound | reference/hnsd-reference/src/chain.c:450-483 | for any stored headers, the bits required of the next header decode to a target within the limit |
| Chain.NextBitsExact | reference/hnsd-reference/src/chain.c:387-483 | as long as total work fits 256 bits, they are the exact encoding over any two headers with the median times of the last three and of the three 144 below |
| Chain.RuledGrow | reference/hnsd-reference/src/chain.c:680-754 | storing a header that passes its rules leaves every stored header passing them: required bits, median time and ancestors do not change |
| Chain.EveryTarget | reference/hnsd-reference/src/chain.c:680-754 | in every valid chain each header above the genesis block carries a target within the limit and hashes to at most that |
| Chain.Run | reference/hnsd-reference/src/chain.c:576-678 | every run of additions from a genesis block ends in a valid chain, in which every stored header has its proof of work, the required bits and a time past the median |
| DnsName.Parse | reference/hnsd-reference/src/dns.c:2096-2210 | the loop computes the parse result for any buffer and message |
| DnsName.WalkEncoded | reference/hnsd-reference/src/dns.c:2112-2192 | from bytes that spell a text after h pointers, the loop succeeds exactly within ten pointers and 255 characters |
| DnsName.EncodesOnce | reference/hnsd-reference/src/dns.c:2112-2192 | a position spells at most one text, with one hop count |
| DnsName.ParseExact | reference/hnsd-reference/src/dns.c:2096-2210 | the parser returns a name and its size exactly when the bytes spell that name within both limits |
| DnsPrint.Note | reference/hnsd-reference/src/dns.c:2256-2273 | looks the rest of the name up and enters it when new and below offset 2^14 |
| DnsPrint.AtDot | reference/hnsd-reference/src/dns.c:2233-2300 | a label is refused, found to start a text seen before, or printed; the rest of the name is still to come |
| DnsPrint.ScanName | reference/hnsd-reference/src/dns.c:2232-2302 | the label scan stops where the specified scan does, with its labels printed and its map |
| DnsPrint.Serialize | reference/hnsd-reference/src/dns.c:2212-2339 | in a buffer with room for the bytes written: accepts exactly the names of the specification and writes exactly their wire form; a refused name leaves the labels printed before it was refused, with their length, and at most one byte more; the map is that of the scan either way |
| DnsRoundTrip.LabelSurvives | reference/hnsd-reference/src/dns.c:2279-2290 | a label survives printing and parsing back |
| DnsRoundTrip.LabelBytes | reference/hnsd-reference/src/dns.c:2274-2286 | 0xff is printed as NUL and 0xfe as a dot, and these are read the other way round |
| DnsRoundTrip.WirePrinted | reference/hnsd-reference/src/dns.c:2212-2339 | labels are never refused; printed against a good map they spell themselves, and every map entry added for labels is spelled at its offset |
| DnsRoundTrip.NamePrinted | reference/hnsd-reference/src/dns.c:2349-2360 | whatever a name leaves behind, accepted or refused, every map entry for labels stays spelled at its offset; a valid name is accepted and spelled |
| DnsRoundTrip.ScanUnexplained | reference/hnsd-reference/src/dns.c:2256-2273 | the scan of a text that is not made of labels enters none that is |
| DnsRoundTrip.ItemPrinted | reference/hnsd-reference/src/dns.c:2349-2360 | each valid name of a message stays spelled where it was printed, with every pointer pointing to bytes that end before it, whatever other names are refused |
| DnsRoundTrip.EncodesLabels | reference/hnsd-reference/src/dns.c:2112-2192 | what any position of a message spells is made of labels of 1 to 63 characters |
| DnsRoundTrip.ReadsValid | reference/hnsd-reference/src/dns.c:2096-2192 | every name that is ever read is valid |
| DnsRoundTrip.RoundTrip | reference/hnsd-reference/src/dns.c:2096-2360 | each name of a message, among others that may be refused, parses back to itself consuming exactly its bytes if and only if it is valid and its chain has at most ten hops |
| DnsRoundTrip.RefusedMisleads | reference/hnsd-reference/src/dns.c:2349-2360 | printing a..b. twice with one map: refused, then accepted as a pointer to the label that the refused name left, which reads as a. |
| DnsRoundTrip.TooManyHops | reference/hnsd-reference/src/dns.c:2176-2179 | 12 to 127 names nested in each other (all that are valid) are valid, and the last does not parse back |
| DnsRoundTrip.PackAccepts | reference/hnsd-reference/src/dns.c:2341-2347 | without compression exactly the names of at most 255 characters that are labels, with or without one dot in front, are accepted |
| DnsRoundTrip.PackExact | reference/hnsd-reference/src/dns.c:2341-2347 | without compression an accepted name parses back exactly when it is valid |
| DnsTruncate.ReadRecord | reference/hnsd-reference/src/dns.c:255-298 | reads up to e exactly when the bytes up to e are a name that parses, and then four bytes for a question, or eight bytes, the length of the data in two, high byte first, and the data |
| DnsTruncate.RecordExact | reference/hnsd-reference/src/dns.c:255-298 | a record is skipped exactly when its bytes are there, and to their end |
| DnsTruncate.RecordSkipped | reference/hnsd-reference/src/dns.c:277-298 | a record written as a name, eight bytes, the length of its data and the data is skipped to the end of the data, whatever follows |
| DnsTruncate.RecordRunsOver | reference/hnsd-reference/src/dns.c:290-298 | a record whose data would run past the message is refused |
| DnsTruncate.RecordsLaid | reference/hnsd-reference/src/dns.c:255-298 | n records are read from one offset to another exactly when their bytes follow each other there |
| DnsTruncate.Section | reference/hnsd-reference/src/dns.c:250-298 | one section: records kept, end of the last one, and where reading stopped |
| DnsTruncate.Cut | reference/hnsd-reference/src/dns.c:247-301 | finds the cut, or a reached record that does not parse |
| DnsTruncate.Truncate | reference/hnsd-reference/src/dns.c:195-322 | unchanged when it fits; otherwise only the counts change, to the longest run of whole records that ends within max |
| DnsTruncate.KeptSmall | reference/hnsd-reference/src/dns.c:300-301 | no count grows |
| DnsTruncate.CutUnique | reference/hnsd-reference/src/dns.c:247-301 | there is only one such cut |
| DnsTruncate.CutNotStuck | reference/hnsd-reference/src/dns.c:247-301 | a cut and an unreadable record in its way exclude each other |
| DnsTruncate.TruncatedWalks | reference/hnsd-reference/src/dns.c:307-319 | walking the truncated message by its own counts, past names without following pointers, ends exactly at its length |
| DnsTruncate.SkipExact | reference/hnsd-reference/src/dns.c:262-297 | a kept record is read from the truncated message exactly when its name, pointers followed, stays below the cut |
| DnsTruncate.TruncatedReads | reference/hnsd-reference/src/dns.c:195-322 | when no kept name reads a byte of a count that changes, reading the truncated message by its own counts ends exactly at its length if and only if every kept name stays below the cut |
| DnsTruncate.TruncatedPrinted | reference/hnsd-reference/src/dns.c:195-322 | so it does when the kept names were printed by the printer |
| DnsTruncate.PointsPastCut | reference/hnsd-reference/src/dns.c:195-322 | a kept question that points to a name that is cut off cannot be read any more |
| DnsTruncate.PointsAtCount | reference/hnsd-reference/src/dns.c:195-322 | a kept question whose name is spelled by a count that changes cannot be read any more |
| Field.Clear | reference/hnsd-reference/src/ecc.c:248-253 | the value zero |
| Field.IsZero | reference/hnsd-reference/src/ecc.c:256-266 | zero test of the value |
| Field.Set | reference/hnsd-reference/src/ecc.c:309-314 | a copy of the source as it was |
| Field.Cmp | reference/hnsd-reference/src/ecc.c:317-329 | the sign of the difference |
| Field.Lshift | reference/hnsd-reference/src/ecc.c:333-345 | the shifted value with its carry, in place or not |
| Field.Rshift1 | reference/hnsd-reference/src/ecc.c:348-360 | halving in place |
| Field.Add | reference/hnsd-reference/src/ecc.c:364-379 | sum plus carry * 2^256, in place or not; the carry kept on equal digits is right |
| Field.Sub | reference/hnsd-reference/src/ecc.c:383-398 | difference with its borrow, in place or not |
| FieldMul.MultColumn | reference/hnsd-reference/src/ecc.c:413-420 | one column of the product, with its 128-bit overflows counted |
| FieldMul.ColumnsAreProduct | reference/hnsd-reference/src/ecc.c:403-427 | the seven columns are the product |
| FieldMul.Mult | reference/hnsd-reference/src/ecc.c:403-427 | the exact 512-bit product |
| FieldReduce.SolinasIdentity | reference/hnsd-reference/src/ecc.c:663-729 | the nine terms differ from the product by a multiple of the prime, linear in its high words |
| FieldReduce.FoldedCongruent | reference/hnsd-reference/src/ecc.c:663-729 | what the additions and subtractions compute is congruent to the product |
| FieldReduce.Fold | reference/hnsd-reference/src/ecc.c:666-729 | the four additions and four subtractions with their signed carry |
| FieldReduce.Correct | reference/hnsd-reference/src/ecc.c:731-738 | both correction loops end below the prime |
| FieldReduce.Reduce | reference/hnsd-reference/src/ecc.c:666-739 | product mod p, for every product below 2^512 |
| FieldReduce.ModMult | reference/hnsd-reference/src/ecc.c:814-821 | left * right mod p |
| FieldInverse.HalveMod | reference/hnsd-reference/src/ecc.c:852-861 | halving modulo an odd modulus, with the carry of the addition restored as the top bit |
| FieldInverse.SubMod | reference/hnsd-reference/src/ecc.c:873-878 | subtraction modulo m although carry and borrow are dropped |
| FieldInverse.Step | reference/hnsd-reference/src/ecc.c:849-910 | each of the four cases keeps a = u * input and b = v * input modulo m and the common divisors, and lowers a + b |
| FieldInverse.ModInv | reference/hnsd-reference/src/ecc.c:831-913 | for odd m > 1: zero for input zero, otherwise r < m with r * input congruent to the greatest common divisor; the loop ends |
| FieldInverse.GcdUnique | reference/hnsd-reference/src/ecc.c:831-913 | the greatest common divisor is determined by its divisors |
| FieldInverse.InverseExact | reference/hnsd-reference/src/ecc.c:831-913 | the result is an inverse exactly when input and modulus are coprime |
| Noise.Cipher.RotateKey | reference/hnsd-reference/src/brontide.c:86-100 | the next key and salt from the old ones, nonce zero |
| Noise.Cipher.Encrypt | reference/hnsd-reference/src/brontide.c:102-123 | seals under the current key and nonce, then advances, rotating at 1000 |
| Noise.Cipher.Decrypt | reference/hnsd-reference/src/brontide.c:125-146 | opens under the current key and nonce, then advances the same way |
| Noise.NonceBound | reference/hnsd-reference/src/brontide.c:114-122 | after n uses the nonce is n further modulo 1000 |
| Noise.KeyKept | reference/hnsd-reference/src/brontide.c:114-122 | the key is the same until the nonce reaches 1000 |
| Noise.KeyRotates | reference/hnsd-reference/src/brontide.c:86-100 | there the key becomes the second half of what is derived from it and the salt, which becomes the first |
| Noise.ActAccepted | reference/hnsd-reference/src/brontide.c:340-439 | acts one and two are accepted and keep both sides in step whenever both compute the same secret |
| Noise.ActThreeAccepted | reference/hnsd-reference/src/brontide.c:441-512 | act three is accepted; each send cipher is the other's receive cipher |
| Noise.HandshakeAgrees | reference/hnsd-reference/src/brontide.c:340-512 | an honest handshake succeeds in every act, teaches the responder the initiator's key, and crosses the ciphers |
| Noise.AcceptedGenuine | reference/hnsd-reference/src/brontide.c:364-439 | act one or two is accepted exactly when its key can be used and its last 16 bytes are the tag of the empty text, under the key from the shared secret and over the digest that took the key in |
| Noise.AcceptedGenuineThree | reference/hnsd-reference/src/brontide.c:463-492 | act three is accepted exactly when both its tags are right and its key can be used; a key that cannot, under a right tag, ends the process |
| Noise.OneTag | reference/hnsd-reference/src/brontide.c:364-439 | of acts that differ only in the tag at most one is accepted |
| Noise.OneTagEach | reference/hnsd-reference/src/brontide.c:463-492 | of third acts with the same sealed key at most one is accepted |
| Noise.ActBinds | reference/hnsd-reference/src/brontide.c:340-439 | if tags and digests do not collide, an act accepted under the tag of an honest one carries its ephemeral key, and both sides had the same digest and compute the same key |
| Noise.ActThreeBinds | reference/hnsd-reference/src/brontide.c:441-492 | so an act three accepted under the first tag of an honest one teaches the responder its sender's static key |
| Noise.ExpectedResponder | reference/hnsd-reference/src/brontide.c:290-387 | so a responder that accepts act one is the one that the initiator expects |
| Noise.LawfulMet | reference/hnsd-reference/src/brontide.c:340-512 | the laws asked of the primitives can be met together |
| Noise.AbortsMet | reference/hnsd-reference/src/brontide.c:365-512 | under the same laws there are a first and a third act that end the process, the third sealed and with the right tag for any state |
| Brontide.Connection.InitState | reference/hnsd-reference/src/brontide.c:290-317 | the handshake state both sides start from |
| Brontide.Connection.GenOne | reference/hnsd-reference/src/brontide.c:340-362 | act one as specified |
| Brontide.Connection.RecvOne | reference/hnsd-reference/src/brontide.c:364-387 | act one accepted exactly when its key can be used and its tag is right; aborts exactly on a key that cannot be used |
| Brontide.Connection.GenTwo | reference/hnsd-reference/src/brontide.c:389-411 | act two as specified |
| Brontide.Connection.RecvTwo | reference/hnsd-reference/src/brontide.c:413-439 | act two accepted exactly when its key can be used and its tag is right |
| Brontide.Connection.GenThree | reference/hnsd-reference/src/brontide.c:441-461 | act three as specified |
| Brontide.Connection.RecvThree | reference/hnsd-reference/src/brontide.c:463-492 | act three accepted exactly when both tags are right and its key can be used; aborts exactly on an authenticated key that cannot be used |
| Brontide.Connection.SplitKeys | reference/hnsd-reference/src/brontide.c:494-512 | the two transport keys, crossed by role |
| Brontide.Connection.OpenLink | reference/hnsd-reference/src/brontide.c:530-568 | act one sent, or act one awaited |
| Brontide.Connection.Write | reference/hnsd-reference/src/brontide.c:570-609 | sealed size and message with their tags, stopping and closing at the first write error |
| Brontide.Connection.TakeFrame | reference/hnsd-reference/src/brontide.c:623-651 | one whole frame parsed, then closed or waiting for the next |
| Brontide.Connection.OnRead | reference/hnsd-reference/src/brontide.c:611-657 | reads any chunk as specified; a live connection always waits for at least one byte |
| Transport.SizeRoundTrip | reference/hnsd-reference/src/brontide.c:570-583 | sizes below 2^31 survive the four-byte form |
| Transport.FourLE | reference/hnsd-reference/src/brontide.c:753-756 | the size in a header is read low byte first |
| Transport.HeaderJudged | reference/hnsd-reference/src/brontide.c:743-763 | a header is accepted exactly when its tag is right and its size at most the largest; that many bytes and a tag come next |
| Transport.PayloadJudged | reference/hnsd-reference/src/brontide.c:765-779 | a payload is delivered exactly when its tag is right, as what was sealed |
| Transport.Parse | reference/hnsd-reference/src/brontide.c:659-780 | keeps the frame length that goes with each state, and never loses a delivered message |
| Delivery.ChunkExact | reference/hnsd-reference/src/brontide.c:611-657 | two reads give the codes and state of one read, except exactly when the second read completes and closes on a frame that the first one cut |
| Delivery.CutFrameDiffers | reference/hnsd-reference/src/brontide.c:611-657 | a header with a wrong tag that arrives in two pieces leaves a different buffer position |
| Delivery.ActRefused | reference/hnsd-reference/src/brontide.c:611-720 | any other act one or two gives its code, closes, and writes and delivers nothing; an act one whose key cannot be used ends the process |
| Delivery.ActThreeRefused | reference/hnsd-reference/src/brontide.c:463-733 | any other act three gives its code, or ends the process on an authenticated key that cannot be used; it closes, and nothing comes out |
| Delivery.AnswerRefused | reference/hnsd-reference/src/brontide.c:682-718 | when the writer refuses the answer to an act, its code is returned and the connection closes |
| Delivery.ActThreeConnects | reference/hnsd-reference/src/brontide.c:726-733 | a genuine act three connects once; if the callback closes, the rest is not read |
| Delivery.OpeningRefused | reference/hnsd-reference/src/brontide.c:530-568 | when the writer refuses act one the connection closes with its code |
| Delivery.FrameRefused | reference/hnsd-reference/src/brontide.c:743-780 | a header or payload with a wrong tag closes the connection with its code, and nothing comes out |
| Delivery.SizeRefused | reference/hnsd-reference/src/brontide.c:753-756 | so does a size above the largest |
| Delivery.SendUpTo | reference/hnsd-reference/src/brontide.c:570-609 | for any writer: a whole number of the four pieces of a message is written, in order, up to the first refusal, which closes the connection with its code |
| Delivery.ChunksAlike | reference/hnsd-reference/src/brontide.c:611-657 | any cutting of a stream ends alike |
| Delivery.SendAllFrames | reference/hnsd-reference/src/brontide.c:570-609 | the bytes written are exactly the frames, and two nonces go on each message |
| Delivery.FeedFrames | reference/hnsd-reference/src/brontide.c:659-780 | the whole stream is delivered in order and the receive cipher follows the send cipher |
| Delivery.Delivered | reference/hnsd-reference/src/brontide.c:570-780 | whatever part has arrived in whatever chunks, a prefix of the messages is delivered; all of it brings both ciphers back in step with nonce below 1000 |
| Delivery.Connects | reference/hnsd-reference/src/brontide.c:514-780 | two honest connections end the handshake each ready for exactly what the other sends |
| Conversation.FeedApart | reference/hnsd-reference/src/brontide.c:611-780 | reading has the same effect whatever was sent meanwhile, and leaves the sending half alone |
| Conversation.RunBoth | reference/hnsd-reference/src/brontide.c:570-780 | through any interleaving of sending and arriving in both directions, each direction is where its own traffic puts it |
| Conversation.Converses | reference/hnsd-reference/src/brontide.c:570-780 | so each side has been delivered a prefix of the other's messages; when all has arrived it is all of them, with the ciphers in lockstep and nonces below 1000 |
| Conversation.ConnectedStart | reference/hnsd-reference/src/brontide.c:514-780 | the handshake ends where such a conversation can start |
| RspList.List.Enqueue | reference/hnsd-reference/src/rs_worker.c:118-138 | appended, list well linked, the head assertion holds |
| RspList.List.Dequeue | reference/hnsd-reference/src/rs_worker.c:94-116 | the oldest taken out and detached, list well linked, the tail assertion holds |
| RspList.List.Remove | reference/hnsd-reference/src/rs_worker.c:210-239 | taken out of the middle or either end, list well linked, all four assertions hold |
| RspList.List.Drain | reference/hnsd-reference/src/rs_worker.c:55-70 | every node visited once, oldest first |
| Worker.StepAsserted | reference/hnsd-reference/src/rs_worker.c:158-618 | no assertion outside the list operations fails at any step |
| Worker.InvStep | reference/hnsd-reference/src/rs_worker.c:190-618 | each atomic step of loop thread, worker thread or libunbound keeps every invariant |
| Worker.RunSafe | reference/hnsd-reference/src/rs_worker.c:190-618 | under every interleaving all invariants hold and none of these assertions fails |
| WorkerLists.Shared.Take | reference/hnsd-reference/src/rs_worker.c:78-299 | every step keeps both lists well linked and apart, holding exactly the objects of the pending and queued requests; every assertion in the list operations holds |
| WorkerLists.Shared.Enter | reference/hnsd-reference/src/rs_worker.c:196-228 | a new object is appended to the pending list |
| WorkerLists.Shared.Leave | reference/hnsd-reference/src/rs_worker.c:210-239 | the object of a refused or answered request is taken out of the pending list |
| WorkerLists.Shared.Hand | reference/hnsd-reference/src/rs_worker.c:118-138 | the answered object, which has no links, is appended to the queue |
| WorkerLists.Shared.Dequeue | reference/hnsd-reference/src/rs_worker.c:94-116 | the object of the oldest response is handed out, or none if there is none |
| WorkerLists.Shared.Free | reference/hnsd-reference/src/rs_worker.c:55-70 | the pending list is empty, and the objects left in the queue are visited in order |
| WorkerLists.ListsApart | reference/hnsd-reference/src/rs_worker.c:190-306 | a request is in at most one list, so the lists share no object |
| WorkerLists.RunLists | reference/hnsd-reference/src/rs_worker.c:190-618 | so it is under every interleaving from the start |
| Worker.AcceptedOnce | reference/hnsd-reference/src/rs_worker.c:446-598 | every accepted request is in exactly one place, once |
| Worker.FreedDelivered | reference/hnsd-reference/src/rs_worker.c:55-70 | once freed, every accepted request has had its callback exactly once, with its own result, in response order |
| Worker.DeliveredInOrder | reference/hnsd-reference/src/rs_worker.c:577-598 | callbacks run in the order responses were queued |
| Worker.CanProceed | reference/hnsd-reference/src/rs_worker.c:533-618 | a closing worker is never stuck |
| Worker.ClosingProgress | reference/hnsd-reference/src/rs_worker.c:533-618 | while the exit flag is set every step but another close brings the stop nearer |
| Worker.StopsSoon | reference/hnsd-reference/src/rs_worker.c:533-618 | any run from there has stopped the worker within a bounded number of such steps |
| Worker.CloseStops | reference/hnsd-reference/src/rs_worker.c:403-618 | from every reachable open state, a run that starts with a close has stopped the worker within Rank + 1 steps other than closes |
| Worker.CloseTakesNone | reference/hnsd-reference/src/rs_worker.c:403-455 | after a close no request is made or accepted until the worker is opened again |
| Worker.ResponsesArrive | reference/hnsd-reference/src/rs_worker.c:577-598 | whenever the loop is idle and the worker thread is not about to signal it, the loop's own steps deliver every queued response |
| Worker.RequestAnswered | reference/hnsd-reference/src/rs_worker.c:446-598 | any worker open and waiting answers a request: made, sent and answered, it is accepted and its callback runs with the answer |
| Worker.FirstOpen | reference/hnsd-reference/src/rs_worker.c:379-396 | such a worker is reached from the start |
| Worker.DeliveredAnswers | reference/hnsd-reference/src/rs_worker.c:554-598 | every callback gets what libunbound answered to its own request |

## Left out

- Hash table: the packed two-bit flag words are one three-valued slot per bucket, sets without values are not modelled, allocation always succeeds, and the load factor is its integer form.
- Hash table: iteration and clearing with a value destructor, which read the same arrays in a plain loop.
- Radix proofs: freeing a proof, and what is left of one whose reading failed; allocation always succeeds.
- Bignum: shifts by other than one bit or whole words, remainder, power, exclusive or, negation and string conversion, which the chain does not use.
- Bitwise or with a left shift below a byte or halfword boundary is addition where a proof shows the bits apart; elsewhere it is `Bits.Or`.
- Headers: fields that the chain does not read, and how the hash is computed; a header carries its hash.
- Chain: heights are unbounded, and the temporary `next` links of a reorganisation are sequences.
- Chain.NextBitsExact: requires that total work fits 256 bits, which is no invariant: past that the stored sums wrap, and the bits required are those of the limit when work seems to decrease (`Retarget.RetargetSound`).
- Chain: the median time of a stored header is that of the current tree only while the genesis block's own parent is not stored.
- Chain: checkpoints, the block locator, sync progress and logging; constants are those of the main network.
- Chain: an orphan whose parent already has an indexed orphan is not indexed, so not every connectable orphan is connected; no claim is made that it is.
- DnsPrint.Serialize: the value of the one byte that may stand behind the labels of a refused name is not specified; the next bytes printed replace it.
- DnsRoundTrip.RoundTrip: names have at most 255 characters, as the arrays of 256 that hold them in the records ensure (`reference/hnsd-reference/src/dns.h:10`).
- DnsTruncate.TruncatedReads: of kept names that read a byte of a count that changes nothing general is claimed; they may be read as other names, or not at all (`DnsTruncate.PointsAtCount`).
- DNS names: measuring without a buffer, sanitising, and the record types that contain names.
- DNS names: the direction from wire to name and back, in which NUL and 0xff bytes are merged.
- Elliptic-curve points and signatures, squaring, and the other curves; the 128-bit product type is a subset of the integers.
- Transport: callbacks that write from inside a read, the internals of the primitives, and reuse of a connection object after it was closed.
- Worker.Enabled: a response callback must not destroy the worker while its responses are being handed out, a duty the source does not state: the loop would go on with a worker that is gone.
- Resolver worker: the mutexes and condition variable are the atomicity of steps; names, classes and result contents are not modelled; a thread that fails to start is not modelled.
- Sockets, event handles, command lines, storage, peers and address tables, and the JavaScript resolver under `src/`.
