# Verification of the MEDS reference implementation

This project models the serial reference implementation of the MEDS signature scheme (`ref/meds_serial.c`
and the files behind it) in Dafny and proves what the scheme is for: **every signature made with a generated
key is accepted, and verification returns exactly the signed message** (`EndToEnd.Cycle`,
`Completeness.HonestSignatureIsAccepted`). The theorem is not about a simplified protocol. Key generation,
signing and verification are methods over byte buffers, matrix buffers, the seed-tree array, the bit stream and
the SHAKE state, in the steps of the C code, and each is proved against a specification function.

The parameters are symbolic (`Params.PAR`): p is any prime of at most `bits` bits (8 to 16), m = n = k is any
dimension from 2 on, and 1 <= w <= t <= 2^H. Every shipped set of `include/params.h` is an instance (4093, 2039
and 8191 are primes).

How the proof is layered:

| layer | modules | main results |
|---|---|---|
| arithmetic mod p | `Arithmetic`, `Sums`, `Field` | Fermat's little theorem; both inversion strategies compute the inverse |
| linear algebra | `Matrix`, `Elimination`, `Products`, `Inverses` | the branch-free elimination returns a canonical form, fails exactly on singular left blocks; the inverse is two-sided |
| group action | `Action` | `pi` is an action, also in place; it commutes with a change of basis; the systematic form is L M for an invertible L; a response leads to the commitment |
| sparse solver | `Solver` | the reduced n x (2m+2) system decides solvability and gives the only solution of the full system |
| SHAKE256 | `Keccak`, `Sponge`, `LaneBits`, `Shake` | the unrolled permutation is FIPS 202, its constants included; incremental, one-shot and block-wise use are one stream, the sponge of FIPS 202 |
| bit stream | `Bits`, `BitStream`, `Packing` | writer and reader are mutually inverse over whole runs of calls; packed segments are read back wherever they lie |
| seed tree | `SeedTree`, `PathNodes`, `Traversal`, `RecursiveTree` | the iterative traversal visits exactly the maximal clean subtrees, in the order of the recursive form; the path length bound, and that it is attained; signer and verifier agree on every unpunctured leaf |
| samplers | `Loops`, `Sampling`, `Draws`, `ParseHash`, `Challenges` | rejection loops as functions of the stream, each read off the stream in both directions; a challenge has exactly w positive entries, and which |
| protocol | `PublicKey`, `Scheme`, `Completeness`, `Codec`, `Keypair`, `Rounds`, `Signing`, `Opening`, `Sizes`, `EndToEnd` | the dropped rows of the public key are forced; key generation, signing and verification compute their specifications; completeness; the size formulas |
| protocol, from outside | `KeyRuns`, `RoundRuns`, `SigningRuns`, `Binding`, `Acceptance`, `Layouts` | what the specifications mean, in both directions and without naming them: the runs of attempts behind keys and rounds, when verification accepts, that a digest binds its commitments, where every entry lies |

Three modelling decisions recur.

* A `while (1)` retry loop has a meaning `Loops.Loop`, which is `None` when it never exits. The methods that
  contain such loops require that the value exists and are then total; signer and verifier share the same
  meaning, so they run the same retries.
* Row reduction is reasoned about through kernels: an elementary row operation keeps the kernel, and a
  systematic matrix is determined by its kernel (`Matrix.SystFormUnique`). That makes the systematic form
  canonical without comparing elimination orders.
* Ghost parameters (`t`, `content`, `values`) carry the number or the bytes a bit stream has written so far;
  they have no effect on what a method does.

`dafny verify dfyconfig.toml` checks the whole project.

## Model

| member | source | states |
|---|---|---|
| Field.Fermat | ref/matrixmod.c:151-194 | for the prime p and every v that is not 0 mod p, v^(p-1) is 1 mod p; proved by the binomial theorem |
| Field.Euclid | ref/matrixmod.c:151-194 | a prime that divides a product divides a factor |
| Field.Inverse | ref/matrixmod.c:151-194 | v^(p-2) mod p times v is 1 mod p for every v that is not 0 mod p |
| Field.AdditionChain | ref/matrixmod.c:153-176 | the fixed 17-step chain computes v^(p-2) mod p for p = 8191 |
| Field.SquareAndMultiply | ref/matrixmod.c:178-193 | the square-and-multiply loop computes v^(p-2) mod p |
| Field.GfInv | ref/matrixmod.c:151-194 | both strategies return the same function of v |
| Matrix.SystFormUnique | ref/matrixmod.c:62-149 | two systematic forms of matrices with the same kernel are equal: the form is canonical |
| Matrix.SystFormFactor | ref/matrixmod.c:62-149 | a matrix is its left block times its systematic form |
| Matrix.LeftMultipleKernel | ref/matrixmod.c:62-149 | an invertible left factor changes neither the kernel nor the systematic form (nor, therefore, the return code) |
| Matrix.SystFormNonsingular | ref/matrixmod.c:62-149 | only a matrix with nonsingular left block has a systematic form |
| Matrix.RowOperationKeepsKernel | ref/matrixmod.c:62-149 | every elementary row operation keeps the kernel |
| Elimination.AddRowIfZero | ref/matrixmod.c:66-80 | the conditional row addition that replaces a row swap, and which cells it changes |
| Elimination.KernelVector | ref/matrixmod.c:62-149 | a column without pivot yields a nonzero kernel vector supported on the left block |
| Elimination.PivotlessIsSingular | ref/matrixmod.c:82-85 | the error return is taken only for a singular left block |
| Elimination.EchelonKernel | ref/matrixmod.c:62-149 | an echelon form with unit pivots has no nonzero kernel vector on the left block |
| Elimination.Forward | ref/matrixmod.c:62-114 | the forward pass, shared with the acceptance test of rnd_inv_matrix, succeeds exactly when the left block is nonsingular, and keeps the kernel |
| Elimination.SystCt | ref/matrixmod.c:62-149 | returns 0 exactly when the left block is nonsingular and then leaves the systematic form of the input; rows below are untouched |
| Products.TimesAssoc | ref/matrixmod.c:42-60 | the product mod p is associative |
| Products.InverseUnique | ref/matrixmod.c:196-215 | a two-sided inverse is unique |
| Products.AugmentedForm | ref/matrixmod.c:196-215 | when [A \| I] reduces to [I \| B], B is a two-sided inverse of A |
| Products.AugmentedSingular | ref/matrixmod.c:196-215 | when the elimination of [A \| I] fails, A is singular and has no inverse |
| Products.MatInv | ref/matrixmod.c:196-215 | returns 0 exactly when A has a two-sided inverse and then stores it, unless B is NULL and only the test is wanted; a failure leaves B as it was |
| Products.InvertibleNonsingular | ref/matrixmod.c:196-215 | a matrix with a left inverse is nonsingular |
| Action.MatMul | ref/matrixmod.c:42-60 | the product goes to C even when C is the buffer of a factor; nothing else changes |
| Action.AccumulatorFits | ref/matrixmod.c:49-52 | the 64-bit accumulator of the product never overflows, for 16-bit entries and any dimension up to 2^31 |
| Action.PiCompose | ref/util.c:424-437 | pi(A1,B1,pi(A2,B2,G)) = pi(A1 A2, B2 B1, G) |
| Action.PiIdentity | ref/util.c:424-437 | the pair of identities acts trivially |
| Action.PiChangeOfBasis | ref/util.c:424-437 | pi(A,B,T G) = T pi(A,B,G) |
| Action.PiInto | ref/util.c:424-437 | pi as a loop over the words, into another buffer or in place |
| Action.ProductNonsingular | ref/meds_serial.c:574-600 | the product of invertible matrices passes the invertibility check |
| Action.SystFormIsChangeOfBasis | ref/matrixmod.c:62-149 | M = F T: the input is its nonsingular left block times its systematic form |
| Action.InverseGivesSystForm | ref/matrixmod.c:62-149 | T = L M when L is the two-sided inverse of the left block of M |
| Action.ChangeOfBasis | ref/matrixmod.c:62-215 | reducing M and inverting its left block: whenever the reduction returns 0, the result T equals L M for the matrix L found, and L has a two-sided inverse |
| Inverses.SystFormExists | ref/matrixmod.c:62-149 | a matrix has a systematic form if and only if its left block is nonsingular, proved by an elimination of its own |
| Inverses.InverseExists | ref/matrixmod.c:196-215 | a square matrix has a two-sided inverse if and only if it is nonsingular |
| Inverses.SystFormIsSystematicBasis | ref/matrixmod.c:62-149 | the systematic form of M is the one systematic matrix that equals L M for an invertible L |
| Action.ResponseMatchesCommitment | ref/meds_serial.c:420-442 | the response (A~ A_inv, B_inv B~) carries the public code to the commitment of the signer |
| Solver.SystemSingular | ref/util.c:233-416 | singularity of the leading blocks of the work matrix is singularity of the leading blocks of P1' |
| Solver.PropagationSolves | ref/util.c:233-416 | rows propagated from the reduced matrix solve all equations of the full system |
| Solver.SolutionUnique | sage-ref/util.py:372-413 | every solution of the full system is the propagated one |
| Solver.BuildSystem | ref/util.c:233-416 | the n x (2m+2) work matrix holds the equations of every column |
| Solver.ReduceSystem | ref/util.c:233-416 | the two-phase reduction leaves both reduced forms, or reports a missing pivot |
| Solver.FillSolution | ref/util.c:233-416 | the buffer sol is filled block by block with the rows of A and B_inv |
| Solver.SolveWords | ref/util.c:233-416 | solve behind the copying of P0' and P1': same return code, the only solution, outputs untouched on failure |
| Solver.Solve | ref/util.c:233-416 | returns 0 exactly when P1' and its leading (n-1) x (n-1) block are nonsingular; then (A, B_inv) is the only solution of the full system |
| Keccak.UnrolledRound | ref/fips202.c:117-228 | one half of the unrolled body, with its 25 literal rotations, is theta, rho by algorithm 2, pi, chi and iota of FIPS 202 |
| Keccak.PermuteLanes | ref/fips202.c:82-344 | twelve double rounds are the 24 rounds of FIPS 202 |
| Keccak.TableIsRegister | ref/fips202.c:48-73 | each of the 24 constants has bit 2^j - 1 set exactly when the shift register of section 3.2.5 of FIPS 202 puts out rc(j + 7 ir) = 1, and no other bit |
| Keccak.OffsetOfStep | ref/fips202.c:117-228 | the rotation of the lane visited at step t of algorithm 2 of FIPS 202, from (1, 0) on by (x, y) -> (y, 2 x + 3 y), is (t + 1)(t + 2)/2 mod 64, and lane (0, 0) is not rotated |
| Keccak.VisitedOnce | ref/fips202.c:117-228 | that walk visits no lane twice and never (0, 0), so the offsets are well defined |
| Keccak.StatePermute | ref/fips202.c:82-344 | the permutation is KECCAK-f[1600] for every state |
| LaneBits.RolBit | ref/fips202.c:11 | the macro ROL, for every amount that occurs, moves bit z - k mod 64 to bit z |
| LaneBits.ThetaBit | ref/fips202.c:117-228 | theta adds to each bit the parities of columns (x - 1, z) and (x + 1, z - 1) |
| LaneBits.RhoBit | ref/fips202.c:117-228 | rho takes bit z from bit z minus the offset of the lane |
| LaneBits.ChiBit | ref/fips202.c:117-228 | chi adds the and of the complement of the next bit of the row and the one after it |
| Sponge.AbsorbConcat | ref/fips202.c:373-392 | absorbing in pieces is absorbing the concatenation |
| Sponge.KeccakAbsorb | ref/fips202.c:373-392 | byte-wise absorption from any position, permuting at every full block |
| Sponge.KeccakFinalize | ref/fips202.c:405-409 | adds the domain bits at the position and the closing bit at the end of the block |
| LaneBits.ByteLaneBit | ref/fips202.c:22-30 | a byte added to a lane at place k meets bits 8 k to 8 k + 7, bit by bit, and no others |
| LaneBits.LaneByteBit | ref/fips202.c:40-45 | byte k squeezed from a lane consists of its bits 8 k to 8 k + 7 |
| Sponge.FinalizeIsPadding | ref/fips202.c:405-409 | those two additions are the padding of sections 5.1 and 6.2 of FIPS 202 |
| Sponge.KeccakAbsorbOnce | ref/fips202.c:461-485 | one-shot absorption leaves the state of incremental absorption and finalization |
| Sponge.KeccakSqueeze | ref/fips202.c:426-446 | reads the next bytes of the output stream from any position |
| Sponge.OutputsConcat | ref/fips202.c:426-446 | consecutive squeezes concatenate to a single one |
| Sponge.AbsorbIsBlocks | ref/fips202.c:373-392 | byte-wise absorption of whole blocks is block-wise absorption |
| Sponge.OutputsAreSqueezed | ref/fips202.c:426-446 | the output stream is the block-wise squeezing of section 4 of FIPS 202 |
| Sponge.IncrementalIsSponge | ref/fips202.c:373-446 | init, absorb, finalize and squeeze compute the sponge function of FIPS 202 for any rate that is a multiple of 8 |
| Shake.StreamIsShake256 | ref/fips202.c:610-667 | the byte stream used by the protocol is SHAKE256 |
| Shake.BytesSplit | ref/fips202.c:653-665 | a longer squeeze is a shorter one and the next |
| Shake.BytesConcat | ref/fips202.c:653-665 | two consecutive squeezes concatenate to one |
| Shake.KeccakState.AbsorbMore | ref/fips202.c:625-635 | the message absorbed so far grows by the input |
| Shake.KeccakState.FinishAbsorbing | ref/fips202.c:637-651 | the stream of the message starts at byte 0 |
| Shake.KeccakState.AbsorbOnce | ref/fips202.c:667-683 | the same state in one call |
| Shake.KeccakState.Squeeze | ref/fips202.c:653-665 | returns the next bytes of the stream and advances by as many |
| Shake.SqueezeBlocks | ref/fips202.c:500-514 | whole blocks, stored lane by lane, are bytes of the same stream |
| Shake.Shake256 | ref/fips202.c:723-734 | whole blocks and then a tail give SHAKE256 of the input |
| BitStream.BitStream.constructor | ref/bitstream.c:7-15 | an empty stream over part of a buffer |
| BitStream.BitStream.Finalize | ref/bitstream.c:17-22 | moves to the next byte boundary and keeps what has been written |
| BitStream.BitStream.Write | ref/bitstream.c:24-77 | appends exactly the given bits or refuses exactly when they do not fit, for every width up to 32; the bytes up to the position are then a function of the values alone if and only if the value does not meet stale bits in a byte that it opens and leaves unfinished |
| BitStream.BitStream.Read | ref/bitstream.c:79-134 | returns the next bits, or all ones exactly when they are past the end, for every width up to 32 |
| BitStream.RoundTrip | ref/bitstream.c:17-134 | the law behind the runs below: a number written in groups of bits and byte steps falls apart into the same groups |
| BitStream.WriteRun | ref/bitstream.c:17-77 | any run of bs_write and bs_finalize calls with widths 1 to 32 leaves the bytes of the values written and the position computed from the widths: in any buffer when all widths are at least 8, otherwise in one that is zero from the next byte on |
| BitStream.ReadRun | ref/bitstream.c:17-134 | the same run of bs_read and bs_finalize calls returns the groups of bits and ends at the same position |
| BitStream.WriteThenRead | ref/bitstream.c:17-134 | writing a run and reading it back returns the values written, on the same condition, and ends at the same position |
| BitStream.WriteTwice | ref/bitstream.c:17-77 | two buffers, with any contents when all widths are at least 8, agree after the same run on all bytes up to the position |
| BitStream.NarrowCases | ref/bitstream.c:32-47 | or-ing a value that leaves its byte unfinished goes wrong exactly on stale bits of a byte that it opens |
| BitStream.EndSplit | ref/bitstream.c:17-134 | the position after a run is reached through the position after each of its prefixes, so writer and reader agree after every call |
| BitStream.StaleByte | ref/bitstream.c:24-47 | a one-bit zero written where 0xFF was is read back as one |
| BitStream.AppendedByte | ref/bitstream.c:40-75 | what one more group of bits does to the current byte |
| Packing.UnpackPack | ref/meds_serial.c:257-279 | a segment of field elements is read back as written, wherever it lies in the bytes |
| Packing.UnpackAll | ref/meds_serial.c:257-279 | the same for segment j of a run of segments |
| Packing.WriteNext | ref/meds_serial.c:427-441 | the next field element always fits its section and extends the packed number |
| Packing.FinishWriting | ref/meds_serial.c:431-444 | behind the last value the buffer holds the earlier bytes and the packed segment |
| Packing.ReadNext | ref/meds_serial.c:262-276 | returns value k of the segment |
| SeedTree.DerivedTwice | ref/seed.c:45-90 | a seed derived in two stages is the seed derived at once |
| SeedTree.DerivedChildren | ref/seed.c:71-87 | the seeds of the two children are the first and the second part of the stream of salt, parent seed and parent address |
| SeedTree.Le32Value | ref/seed.c:77-78 | the four address bytes are the address, little-endian |
| SeedTree.HashInputInjective | ref/seed.c:52-79 | salt, seed and address can be read off the hashed input |
| SeedTree.NodesHashApart | ref/seed.c:52-79 | no two nodes of a tree are hashed as the same input, whatever their seeds |
| SeedTree.HashPair | ref/seed.c:71-87 | one hash gives both children, or only the left one at the right end of an incomplete tree |
| SeedTree.HashLevel | ref/seed.c:66-88 | one level below a node is filled up to the first child that starts at or behind t |
| SeedTree.THash | ref/seed.c:45-90 | exactly the descendants that start before t get their derived seeds, everything else is unchanged |
| PathNodes.NodesInside | sage-ref/seedtree.py:67-77 | path nodes lie in the subtree, start before t and contain no punctured leaf |
| PathNodes.NodesOrdered | sage-ref/seedtree.py:67-77 | path nodes are disjoint and in the order of the leaves |
| PathNodes.NodesCover | sage-ref/seedtree.py:67-77 | a leaf before t is below a path node exactly when it is not punctured |
| PathNodes.NodesMaximal | sage-ref/seedtree.py:67-77 | the parent of a path node contains a punctured leaf |
| PathNodes.SavingLeast | include/params.py:82-87 | 2^c - w(c+1) is smallest at ceil(log2 w) |
| PathNodes.MaxNodesSplit | include/params.py:82-87 | the bounds of the two halves add up to at most the bound of the whole |
| PathNodes.NodesBound | include/params.py:82-87 | w punctured leaves leave at most 2^c + w(d - c - 1) path nodes, c = ceil(log2 w), below a node with d levels |
| PathNodes.BoundIsAttained | include/params.py:82-87 | in a full tree some challenge of every weight needs that many |
| Traversal.SpineBound | include/params.py:82-87 | the bound with ceil(log2 t) holds at every node on the left edge whose subtree holds all t leaves |
| Traversal.PathFits | include/params.py:82-87 | the path of every challenge of weight w has at most 2^c + w(ceil(log2 t) - c - 1) nodes, c = ceil(log2 w), in a tree of any height with room for t leaves |
| Traversal.FillIndices | ref/seed.c:99-105 | for at most w marked leaves, the index array lists exactly these, ascending, and the entries behind them are 0 |
| Traversal.NextIsBelow | ref/seed.c:112 | the shift test of the inner loop says whether the current subtree contains a punctured leaf |
| Traversal.NothingAfter | ref/seed.c:157-158 | behind the end of the tree nothing is left to visit |
| Traversal.StreeToPathToStree | ref/seed.c:92-160 | for at most w marked leaves and a path buffer with room for the nodes visited: in one mode the path holds the seeds of the path nodes in order, in the other every leaf below a path node gets the seed that follows from the path; the left edge grows with every pass, so it terminates |
| Traversal.CoversExactly | ref/seed.c:92-160 | the nodes visited cover exactly the unmarked leaves if and only if at least one leaf is marked; the zeros behind the last index make leaf 0 count as marked |
| Traversal.HashedIsFull | ref/meds_serial.c:412 | hashing from the root again restores every leaf that was overwritten |
| Traversal.SeedTreeRoundTrip | ref/seed.c:92-160 | a tree filled from the signer's path has the signer's seed at every leaf that is not punctured, and nothing new elsewhere |
| Traversal.TraversalIsCorrect | ref/seed.c:92-160 | path nodes: disjoint, ordered, clean, maximal, covering exactly the unpunctured leaves before t, and at most as many as the slot holds |
| RecursiveTree.DeletePrunes | sage-ref/seedtree.py:56-65 | deleting a leaf removes exactly the values on its way to the root |
| RecursiveTree.PathIsNodes | sage-ref/seedtree.py:67-77 | the recursive path is the seeds of the path nodes in the same order |
| RecursiveTree.TraversalIsRecursivePath | sage-ref/seedtree.py:67-77 | the bytes the C traversal emits are the recursive path of the tree after all deletions |
| RecursiveTree.DeleteAllIsPruned | sage-ref/seedtree.py:56-65 | after deleting leaves from a complete tree of any values, a node holds a value exactly when no deleted leaf is below it |
| RecursiveTree.PatchRestores | sage-ref/seedtree.py:79-90 | patching any tree from which the same leaves were deleted, whatever its nodes held, consumes the whole path and restores the unpunctured leaves before t, also in incomplete trees |
| RecursiveTree.RecursiveRoundTrip | sage-ref/seedtree.py:93-112 | delete, path and patch together give a verifier whose tree held any values the signer's seeds |
| Loops.LoopUnfold | ref/meds_serial.c:75-149 | a retry loop is its body followed by the loop |
| Loops.PassesDecrease | ref/meds_serial.c:75-149 | when the loop exits, the number of passes still to come decreases |
| Sampling.Xof | ref/util.c:55-63 | the outputs are consecutive slices of the stream of the seed, also when one of them is the seed buffer |
| Sampling.RndGf | ref/util.c:65-83 | returns the first masked two-byte value below p and stops right behind it |
| Sampling.RndSysMat | ref/util.c:86-101 | fills the right part row by row from the stream and puts the identity on the left |
| Sampling.SysMatIsSystematic | ref/util.c:86-101 | the result is systematic with entries below p |
| Sampling.RndInvMatrix | ref/util.c:103-175 | returns the first sample whose forward elimination finds all pivots, unmodified |
| Sampling.RndInvIsNonsingular | ref/util.c:103-175 | the result is a sample as drawn, with entries below p, and nonsingular |
| Draws.MaskedIsPair | ref/util.c:65-83 | a sampled value is the little-endian number of two bytes of the stream, mod 2^bits |
| Draws.RndGfIsFirst | ref/util.c:65-83 | rnd_GF returns exactly the first such value below p, and the stream position right behind it |
| Draws.DrawManyIsAccepted | ref/util.c:86-101 | drawing k elements returns exactly the first k values below p of the stream, in order, and stops behind the last of them |
| Draws.SysMatIsAccepted | ref/util.c:86-101 | the sampled code is exactly the identity and, row by row to its right, the first values of the stream |
| Draws.RndInvIsFirst | ref/util.c:103-175 | the values of the stream are cut into samples; the result is exactly the first nonsingular one |
| Loops.LoopIsRun | ref/meds_serial.c:75-149 | a retry loop returns r if and only if some finite sequence of passes leads to r |
| ParseHash.JoinBytes | ref/util.c:204-205 | or-ing the shifted bytes gives the little-endian number |
| Challenges.Parse | ref/util.c:177-231 | refuses a buffer that is too short; otherwise stores exactly the entries that the draws from the digest give |
| ParseHash.ParseHashIsChallenge | ref/util.c:177-231 | where it finishes, exactly w entries are positive, each in 1..s-1 |
| Challenges.ParseHashIsPlacement | ref/util.c:190-229 | h is the challenge if and only if there are draws, each starting in the stream where the one before stopped: a leaf number, and for a leaf below t not yet taken the first following masked byte in 1..s-1; h[pos] = v > 0 exactly when a draw gives v to pos; they end when w leaves are taken |
| PublicKey.RebuiltFromSent | ref/meds_serial.c:484-508 | decompression undoes compression exactly for the codes whose first two rows have the constant form |
| PublicKey.FirstWord | ref/meds_serial.c:112-136 | A P0' = B_inv makes the first word of the transformed code the identity |
| PublicKey.SecondWord | ref/meds_serial.c:112-136 | the shift equations make the second word the shifted identity in its first n-1 rows |
| PublicKey.PublicCodeRoundTrip | ref/meds_serial.c:112-175 | every code that key generation accepts has the constant rows and is rebuilt exactly by the verifier |
| Scheme.MakeKeyIsHonest | ref/meds_serial.c:103-143 | an accepted attempt yields inverse pairs, a public code in the orbit of G_0 and a code that survives compression |
| KeyRuns.MakeKeyIs | ref/meds_serial.c:103-149 | an attempt yields a key exactly when both blocks are nonsingular, (A, B_inv) is the only solution for T G_0, both have inverses, and the public code is the systematic basis of pi(A, B, G_0) |
| KeyRuns.AttemptIs | ref/meds_serial.c:75-149 | T and A[m-1][m-1] are drawn from the second and the first part of the stream of the attempt's seed; whether it succeeds or fails, the third part is the next seed |
| KeyRuns.SecretKeysAreRun | ref/meds_serial.c:33-150 | keys are generated exactly by a run of attempts on seed after seed: key i is made by the first attempt to succeed behind that of key i-1, all between fail |
| KeyRuns.RunIncreases | ref/meds_serial.c:70-150 | no attempt makes two keys |
| KeyRuns.SeedsOfDelta | ref/meds_serial.c:33-44 | the seed of G_0 and the first attempt's seed are consecutive parts of the stream of delta |
| KeyRuns.KeyGenIsRun | ref/meds_serial.c:26-220 | pk and sk are exactly the bytes made of such a run |
| Scheme.RoundIsGood | ref/meds_serial.c:338-372 | the matrices of a round are invertible and the commitment is the systematic form of their action on G_0 |
| RoundRuns.RoundIsGrown | ref/meds_serial.c:338-372 | a round is exactly the first attempt, on seed after seed, whose pi(A, B, G_0) has a systematic basis; A and B are drawn from the first two parts of the stream of salt, seed and round number, the third is the next seed |
| Scheme.TranscriptParts | ref/meds_serial.c:222-403 | what a signing run consists of: rounds, digest of commitments and message, challenge of weight w |
| SigningRuns.RootAndSalt | ref/meds_serial.c:296-302 | root seed and salt are consecutive parts of the stream of delta |
| SigningRuns.TranscriptIsRun | ref/meds_serial.c:222-403 | rounds, digest and challenge are exactly those that grow from the leaf seeds, hash with the message, and are placed by the digest |
| SigningRuns.SignatureIsSigned | ref/meds_serial.c:222-457 | a signature is exactly the layout of such a run: responses, path, digest, salt, message |
| Scheme.ResponsesAreSegments | ref/meds_serial.c:416-446 | two packed segments for every positive challenge entry, all of field elements |
| Completeness.LoadedPublicCode | ref/meds_serial.c:480-508 | the verifier rebuilds the public codes of key generation from pk |
| Completeness.LoadedSecretPart | ref/meds_serial.c:257-279 | the signer loads the secret matrices of key generation from sk |
| Completeness.ResponseIsAccepted | ref/meds_serial.c:560-613 | an honest response passes both invertibility checks and leads to the commitment |
| Completeness.LeafFromPath | ref/meds_serial.c:535-539 | the verifier derives the signer's seed of every leaf that is not punctured |
| Completeness.RoundsAreAccepted | ref/meds_serial.c:556-677 | after every round both sides have hashed the same bytes |
| Completeness.HonestSignatureIsAccepted | ref/meds_serial.c:26-698 | for every key pair, message and random input on which the retry loops exit, verification accepts and returns the message |
| Codec.WriteSent | ref/meds_serial.c:165-175 | the loops over row 1 and the rows from 2 on write the sent part of a code |
| Codec.WriteMatrix | ref/meds_serial.c:199-213 | a matrix becomes one packed segment |
| Codec.WriteHashed | ref/meds_serial.c:376-383 | the commitment buffer is filled completely, so no finalize is needed |
| Binding.CommitmentEntry | ref/meds_serial.c:376-383 | entry (r, c) right of the identity is group (n^2 - n) r + c - n of the bits of the hashed bytes |
| Binding.CommitmentInjective | ref/meds_serial.c:376-383 | equal hashed bytes come from equal commitments |
| Binding.HashedInjective | ref/meds_serial.c:376-386 | equal bytes of equally many commitments come from the same commitments, one by one |
| Binding.DigestBinds | ref/meds_serial.c:385-395 | equal digests mean equal commitments and equal messages, or a collision of SHAKE256 at the digest length |
| Codec.ReadMatrix | ref/meds_serial.c:262-276 | a segment becomes a matrix |
| Codec.ReadModMatrix | ref/meds_serial.c:560-568 | a segment becomes a matrix with entries reduced mod p |
| Layouts.PublicKeyEntry | ref/meds_serial.c:153-188 | where each entry of a public code is in pk, as a group of bits |
| Layouts.SecretKeyEntry | ref/meds_serial.c:190-217 | where delta, the seed and each entry of A_inv and B_inv are in sk |
| Layouts.ResponseEntry | ref/meds_serial.c:416-446 | where each entry of A~ A_inv and of B_inv B~ is in a signature |
| Keypair.FinishKey | ref/meds_serial.c:103-149 | from the drawn matrix and scalar to the key, or failure at exactly the four points where the code retries |
| Keypair.AttemptKey | ref/meds_serial.c:75-149 | one attempt of the retry loop: success, or the seed for the next attempt |
| Keypair.NextKey | ref/meds_serial.c:70-150 | the retry loop for one code, sigma being overwritten at every pass |
| Keypair.WritePublicKey | ref/meds_serial.c:153-188 | seed and sent parts fill pk exactly, so the size check never fails |
| Keypair.WriteSecretKey | ref/meds_serial.c:190-217 | sk is delta, seed, all A_inv, all B_inv |
| Keypair.CryptoSignKeypair | ref/meds_serial.c:26-220 | pk and sk are the bytes of a run of attempts on the stream of delta |
| Rounds.AttemptRound | ref/meds_serial.c:338-372 | one attempt of a round; the leaf is replaced in any case |
| Rounds.RunRound | ref/meds_serial.c:338-372 | the retry loop of a round, shared by signer and verifier |
| Signing.RunRounds | ref/meds_serial.c:334-386 | all rounds, each commitment absorbed; the root of the tree stays intact |
| Signing.WriteResponses | ref/meds_serial.c:416-446 | the mu/nu section is filled exactly, no write refused |
| Signing.WritePath | ref/meds_serial.c:406-413 | the tree is hashed again in full and its path nodes are stored in the slot of the signature, nothing else |
| Signing.WriteFront | ref/meds_serial.c:406-446 | the second hashing, the path, and the responses, without touching the rest of the signature |
| Signing.CryptoSign | ref/meds_serial.c:222-457 | the buffer holds a signature of the message that carries a signing run: responses, path, digest, salt, message; nothing behind it changes |
| Opening.ReadCode | ref/meds_serial.c:486-507 | one public code is rebuilt in the order of the code: identity, streamed entries, constant rows |
| Opening.FillTree | ref/meds_serial.c:535-539 | the verifier's tree has the seeds that follow from the path |
| Opening.CheckResponse | ref/meds_serial.c:560-616 | reads mu and nu mod p, checks both, and computes the commitment, or reports failure exactly when a matrix is singular |
| Opening.CheckAll | ref/meds_serial.c:556-677 | the hashed bytes of all rounds, or an early failure |
| Acceptance.FromResponseIs | ref/meds_serial.c:574-613 | a response yields g exactly when mu and nu both have a two-sided inverse and g = L pi(mu, nu, G[h]) is systematic for an invertible L |
| Acceptance.CheckRoundIs | ref/meds_serial.c:556-671 | a round of verification yields g exactly when the response does, or when the round grown from the path's seed has that commitment |
| Acceptance.OpenIsAcceptance | ref/meds_serial.c:459-698 | verification accepts m if and only if m is the tail of the signature, every round stands for a commitment, and these commitments and m hash to the digest field |
| Acceptance.SameDigestSameCommitments | ref/meds_serial.c:556-690 | two accepted signatures with the same digest carry the same message, challenge and commitments, or SHAKE256 collides |
| Opening.CryptoSignOpen | ref/meds_serial.c:459-698 | returns 0 exactly when the signature is acceptable in that sense, and then the message; otherwise -1 with nothing written; for every signature and public key of the right length |
| EndToEnd.Cycle | ref/test.c:48-79 | key generation, signing and verification in a row return 0 and the message |
| Sizes.SizesMeetTheFormulas | include/params.py:42-104 | the path slot has the size of seed_max_tree_len for every parameter set; public key, secret key and signature have the sizes of their formulas when GFq_bits is ceil(log2 q) |

## Left out

- `ref/meds_stream.c`, `reserver_code/meds.c`, the KAT drivers and the serial-port code: variants of the same algorithms.
- The AES generator behind `randombytes`: random bytes are arbitrary inputs (`delta`).
- Probability, unforgeability, constant-time behaviour and the probability that a retry loop exits.
- Integer widths of the C types other than the accumulator of `pmod_mat_mul`: intermediate values are unbounded integers here. Single products are of two 16-bit values and are reduced before they are used; seed-tree addresses stay below 2^30.
- Only m = n = k is modelled, as in every shipped set; `pmod_mat_mul` sums over the columns of its left factor, so that factor is square.
- The seed tree is an array of seeds, not of bytes; the path in the signature is bytes.
- SHAKE128, SHA3 and the 128-bit rate functions of `ref/fips202.c`: same sponge, other constants.
- Logging and printing.
- Inner loops of the C functions appear as methods of their own where a proof needs a contract for them.
- BitStream.BitStream.Write: with width 0 behind the last byte the C code touches the byte after the buffer; the position must then be inside it. BitStream.BitStream.Read likewise.
- BitStream.WriteRun: all calls of the repository have widths of at least 8; for a run with smaller widths into a buffer that is not zero, only the statement about the single call is made (BitStream.BitStream.Write, BitStream.StaleByte).
- Traversal.StreeToPathToStree: with more than w marked leaves the C index array would overflow; such masks are excluded.
- Opening.CryptoSignOpen: needs a signature of at least the fixed size, which the C code does not check before subtracting.
- Keypair.CryptoSignKeypair: the three buffers are distinct; Signing.CryptoSign and Opening.CryptoSignOpen assume the same of theirs.
- Sizes.SizesMeetTheFormulas: the other theorems allow any GFq_bits that is large enough for p, so the formulas, which have ceil(log2 q) there, are met on that condition; `include/params.py` computes GFq_bits that way.
