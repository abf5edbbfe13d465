# The storage core of B.U.D., verified

This project models the storage crate of the repository (`bud/src`) in Dafny and proves what the
crate is for: that what is stored comes back, that what is damaged is repaired or refused, and that
what is agreed on or committed to cannot be quietly changed. It covers

- the **Huffman codec**: greedy tree building, canonical codes, bit packing and the strict decoder
  (`HuffmanTree`, `PrefixCodes`, `HuffmanLengths`, `HuffmanBuilder`, `Canonical`, `BitPacking`,
  `HuffmanCodec`, `HuffmanLimit`);
- the **erasure codes**: GF(2^8) from its tables, Gauss-Jordan inversion and the systematic Cauchy
  code (`Gf256`, `Linear`, `GaussJordan`, `Erasure`), and the fountain code over GF(2) with its seeded
  generator (`Fountain`, `Generator`, `BlockPicks`);
- **agreement and commitment**: ratio finality by vote (`Bft`), the Merkle tree of data availability
  sampling (`Das`), checkpoint chains (`Checkpoints`) and regeneration blocks (`Blocks`);
- the **storage pipeline**: structural and content-defined chunking (`Structural`, `JsonCuts`,
  `FastCdc`), the container file (`Container`, `Restoring`), the log and JSON transforms (`LogText`, `LogLine`,
  `LogField`, `Json`, `Columnar`), the shard pack (`ShardPack`), and the engine that composes them
  (`Engine`), and the stored formats byte for byte (`Formats`).

`Options`, `Collections`, `Bytes`, `Hashing`, `Sums`, `Chunks`, `Lists` and `Utf8` hold what the others share.

Loops, buffers and cursors of the crate are methods with loops here, each proved against a
specification function or relation; the theorems are about those specifications. A relation is used
where a layer's answer is characterised and not computed (for example `HuffmanCodec.IsDecompressed`,
`Erasure.Decodes`, `Bft.Finalizes`, `ShardPack.Opens`, `Engine.Stores`): the method is proved to give an answer in
the relation, and the theorems hold for every answer in it.

Beside the main operations stand theorems that say what the answer is without naming the functions
that compute it: most of their names end in `Exactly`, and `Formats` and `JsonCuts` hold more of them.

## Conventions

- Bytes are the naturals below 256; inside the field arithmetic they are 8-bit vectors. Integers are
  unbounded, and every width, truncation and wrap-around of the crate that can be reached is written
  out (`Le` cuts to its width, the bit buffer is reduced modulo 2^64, and so on).
- The hash is an arbitrary function from byte strings to 32 bytes. Nothing is assumed of it in the
  round-trip theorems. Where security is the point the theorems assume that the finitely many byte
  strings at hand do not collide.
- Signatures, zstd, the JSON reader and writer and the format catalogue are parameters. What is
  assumed of them is named where it is used. `Restoring.Lossless`: below the 4 GiB ceiling zstd gives
  back what it compressed. `Json.ComesBack`: the JSON library reads back what it wrote for one value;
  it is asked only of the values at hand, those in the text columns of a table
  (`Columnar.TextsComeBack`) or the array that is written. `Columnar.Orders`: the comparison of the
  order-free mode is a total order of the records at hand.
- A value that only a checked constructor of the crate can make carries those checks as a
  precondition (`Bft.Validators.Valid`, `Erasure.CauchyMds.Valid`, `Gf256.Gf8.Valid`).
- Arithmetic is that of an optimised build: sums wrap and the distance of a shift is taken modulo 64.
- Floating-point ratios are their 64 bits, as they are compared and signed in the crate.

## Where the code and its documentation differ

The model follows the code. The differences that matter are stated as theorems.

- The Huffman codec is described as lossless. The compressor has no length limit and the decoder
  refuses codes above 32 bits: `HuffmanCodec.RoundTrip` gives the exact condition, every input below
  11,405,773 bytes meets it (`HuffmanCodec.ShortMessagesComeBack`), and `HuffmanLimit.LosslessnessFails`
  exhibits a message of that length that is refused.
- The exact mode of the columnar transform is described as byte-identical, and the engine relies on
  it. It returns the array in compact form with the first record's key order:
  `Columnar.ExactWhenPlain` and `Engine.ColumnsAreLosslessWhenPlain` say when that is the input, and
  `Columnar.KeyOrderIsLost` gives a text that comes back different.
- The container reader is described as strict. It does not look at the digest-length byte of the
  header and reads every unregistered codec code alike: `Container.AcceptedExactly` and
  `Container.DigestLengthIgnored`.
- An availability proof is described as proving a chunk at its index. Inside the file it does
  (`Das.PositionsAreBound`); past the end an index can be accepted for the last chunk of an odd level
  (`Das.PositionPastTheEnd`), and `Das.AcceptedExactly` describes all accepted proofs.
- The engine writes the container length in 32 bits. `Engine.StoredIsRestored` states what that means:
  a longer container is refused when it is restored, never restored wrongly, and with erasure on it
  always fits.

## Model

| member | source | states |
|---|---|---|
| `Gf256.MulAssoc` | bud/src/bud_format_erasure.rs:30-73 | the product mod 0x11D is associative, for all triples of field elements |
| `Gf256.MulComm` | bud/src/bud_format_erasure.rs:30-73 | and commutative |
| `Gf256.MulLinearRight` | bud/src/bud_format_erasure.rs:30-73 | and distributes over exclusive or |
| `Gf256.MulIsPolynomial` | bud/src/bud_format_erasure.rs:30-73 | the product of two bytes is their product as polynomials over GF(2), up to a multiple of 0x11D; so it is the remainder |
| `Gf256.AlphaOrder` | bud/src/bud_format_erasure.rs:38-49 | no power of the generator below 255 is one, so the table of exponents is well defined |
| `Gf256.AlphaOnto` | bud/src/bud_format_erasure.rs:38-49 | every nonzero byte is a power of the generator, so every entry of the log table is filled |
| `Gf256.FillPowers` | bud/src/bud_format_erasure.rs:39-49 | the first table loop, in place: each power of the generator and, inversely, its exponent |
| `Gf256.Unwrap` | bud/src/bud_format_erasure.rs:50-55 | the second loop repeats the powers, so that a sum of two exponents needs no reduction |
| `Gf256.Build` | bud/src/bud_format_erasure.rs:38-57 | the tables built are valid: powers and exponents of one generator of the field |
| `Gf256.Gf8.Product` | bud/src/bud_format_erasure.rs:59-65 | the table product is the shift-and-add product of polynomials mod 0x11D, zero included |
| `Gf256.Gf8.Inverse` | bud/src/bud_format_erasure.rs:67-72 | the table inverse is the multiplicative inverse, and is refused for zero only |
| `GaussJordan.ClearColumn` | bud/src/bud_format_erasure.rs:224-232 | clearing a column keeps the solutions of the system and leaves one more column reduced |
| `GaussJordan.NormalizePivot` | bud/src/bud_format_erasure.rs:211-223 | a pivot is found exactly when the column has one; swapping and scaling keep the solutions |
| `GaussJordan.InvertMatrix` | bud/src/bud_format_erasure.rs:201-235 | an inverse is returned exactly when the matrix is nonsingular, and it inverts it from both sides |
| `GaussJordan.NonsingularHasInverse` | bud/src/bud_format_erasure.rs:201-235 | every nonsingular matrix has a two-sided inverse |
| `Erasure.CauchyKernel` | bud/src/bud_format_erasure.rs:95-106 | as many Cauchy equations at distinct points as nonzero unknowns have only the zero solution |
| `Erasure.AnyKShardsSuffice` | bud/src/bud_format_erasure.rs:160-187 | every choice of k distinct rows of the identity above the Cauchy matrix is nonsingular |
| `Erasure.CauchyMds.Parity` | bud/src/bud_format_erasure.rs:127-139 | a parity shard is the Cauchy combination of the data shards, byte by byte |
| `Erasure.EncodingIsCoded` | bud/src/bud_format_erasure.rs:99-141 | for all data, every byte of parity i is the sum over j of a coefficient times the byte of shard j, where the coefficient is the inverse of i xor (p + j) |
| `Erasure.ParityOfUnit` | bud/src/bud_format_erasure.rs:99-139 | the parity of data that is one in shard j and zero elsewhere shows the coefficient: times i xor (p + j) it is one |
| `Erasure.CauchyMds.Encode` | bud/src/bud_format_erasure.rs:112-141 | the data shards unchanged, then p parities whose byte b is the sum of the inverses of i xor (p + j) times byte b of shard j; refused exactly for a wrong count, an empty, oversized or unequal shard |
| `Erasure.CauchyMds.Coefficients` | bud/src/bud_format_erasure.rs:160-180 | the coefficient matrix of the first k survivors |
| `Erasure.CauchyMds.Rebuild` | bud/src/bud_format_erasure.rs:186-197 | the rows of the inverse applied to the surviving shards |
| `Erasure.CauchyMds.Decode` | bud/src/bud_format_erasure.rs:145-198 | the one set of data shards that explains the first k survivors; refused exactly when there are too few, unequal or dependent ones |
| `Erasure.DecodesUnique` | bud/src/bud_format_erasure.rs:145-198 | the decoder's answer is determined by its input |
| `Erasure.RecoverFromAnyK` | bud/src/bud_format_erasure.rs:112-198 | any k or more survivors with distinct indices of any encoding give back exactly the data shards |
| `Erasure.RepeatedIndexRefused` | bud/src/bud_format_erasure.rs:145-198 | an index repeated among the first k survivors is refused |
| `Erasure.New` | bud/src/bud_format_erasure.rs:84-93 | the parameters that are accepted: k and p positive, together below 256 |
| `Fountain.SymbolIsCombination` | bud/src/bud_format_fountain.rs:67-76 | a symbol over distinct blocks is the GF(2) combination its mask stands for |
| `Fountain.PivotStep` | bud/src/bud_format_fountain.rs:101-121 | taking a pivot and clearing its column from the other rows keeps what the rows span and what they say of the blocks |
| `Fountain.Substitute` | bud/src/bud_format_fountain.rs:138-147 | back substitution leaves one block in a pivot row |
| `Fountain.Decode` | bud/src/bud_format_fountain.rs:81-153 | blocks are returned exactly when the masks have full rank over the k columns, and each is the one every solution of the symbols has there |
| `Fountain.RecoverBlocks` | bud/src/bud_format_fountain.rs:25-153 | symbols of the blocks, in any number and order, give back exactly the blocks if their masks have rank k, and None otherwise |
| `Fountain.RefusalIsRight` | bud/src/bud_format_fountain.rs:124-135 | without full rank, different blocks give the same symbols |
| `Generator.EveryWordComes` | bud/src/bud_format_fountain.rs:155-168 | from every state the generator reaches every 64-bit word before it repeats |
| `Generator.AfterClosed` | bud/src/bud_format_fountain.rs:155-168 | the word after n steps in closed form, with the constants of the generator written out |
| `BlockPicks.PickDistinct` | bud/src/bud_format_fountain.rs:56-69 | the pick loop ends, from every state and for every number of blocks, with the first d different indices the generator gives |
| `BlockPicks.DrawBlocks` | bud/src/bud_format_fountain.rs:49-70 | one draw: the degree, then as many different blocks, in ascending order |
| `BlockPicks.DrawExactly` | bud/src/bud_format_fountain.rs:49-70 | one draw from the m-th word on, in terms of the words alone: one block exactly when the next word is divisible by three, else two plus the word after it modulo seven, at most all; the blocks are the first different residues of the words that follow, ascending |
| `Fountain.Encode` | bud/src/bud_format_fountain.rs:25-78 | for every seed: each symbol is the exclusive or of its blocks, and the blocks are those the words of the generator from that seed choose, symbol after symbol; refused exactly for no block, no symbol, too many, empty or unequal blocks |
| `HuffmanTree.HuffmanIsOptimal` | bud/src/bud_format_huffman.rs:215-251 | no lengths that meet the Kraft inequality cost less than the tree that the crate's greedy merge, with its tie-break, builds |
| `HuffmanTree.HuffmanWellBuilt` | bud/src/bud_format_huffman.rs:193-257 | the tree holds every used symbol once, with the total frequency at the root; no node is lighter than a niece, or as light as one whose own children differ in weight |
| `HuffmanTree.DeepIsHeavy` | bud/src/bud_format_huffman.rs:193-276 | with this tie-break a leaf at depth d of two or more forces a total frequency of at least 2 Fib(d + 1) - 1 |
| `HuffmanTree.WriteDepthsKraft` | bud/src/bud_format_huffman.rs:259-276 | the depths the walk writes fill exactly the subtree's share of the code space |
| `HuffmanBuilder.LeafItems` | bud/src/bud_format_huffman.rs:194-201 | one node for every symbol that occurs, in symbol order |
| `HuffmanBuilder.SelectPair` | bud/src/bud_format_huffman.rs:216-244 | one scan finds the lightest and second lightest unused node, ties to the earlier; none exactly when fewer than two are left |
| `HuffmanBuilder.MergeAll` | bud/src/bud_format_huffman.rs:214-251 | the merge loop on the growing node list ends with the tree of Huffman's algorithm as its only root |
| `HuffmanBuilder.WriteLengths` | bud/src/bud_format_huffman.rs:259-276 | the recursive walk writes the depth of every leaf into the length table and changes nothing else |
| `HuffmanBuilder.LengthsByFreq` | bud/src/bud_format_huffman.rs:193-257 | the code lengths of the specification, for every frequency table, empty and one-symbol ones included |
| `HuffmanLengths.LengthsCoverSymbols` | bud/src/bud_format_huffman.rs:193-276 | exactly the symbols that occur get a code |
| `HuffmanLengths.LengthsKraft` | bud/src/bud_format_huffman.rs:193-294 | the lengths fill the code space exactly, a lone symbol half of it, so the decoder's Kraft check passes |
| `HuffmanLengths.LongCodesNeedLongInput` | bud/src/bud_format_huffman.rs:193-276 | a code of length l above one needs a total frequency of at least 2 Fib(l + 1) - 1 |
| `HuffmanLengths.ShortInputsHaveShortCodes` | bud/src/bud_format_huffman.rs:28-28 | below 11,405,773 symbols no code is longer than 32 bits |
| `HuffmanLengths.NoPrefixCodeIsShorter` | bud/src/bud_format_huffman.rs:193-276 | no prefix code over the used symbols encodes the input in fewer bits |
| `PrefixCodes.KraftInequality` | bud/src/bud_format_huffman.rs:278-294 | the words of every prefix code meet the Kraft inequality |
| `Canonical.CodesFit` | bud/src/bud_format_huffman.rs:142-156 | every code of a table within the Kraft bound fits its length |
| `Canonical.CodeWordsPrefixFree` | bud/src/bud_format_huffman.rs:57-70 | no code word is a prefix of another |
| `Canonical.NextCode` | bud/src/bud_format_huffman.rs:61-70 | the compressor's incremental assignment and the decoder's first-code table give one code to every symbol |
| `Canonical.CodeInRange` | bud/src/bud_format_huffman.rs:178-184 | a number in the range of codes of a length is the code of the symbol listed there |
| `Canonical.CodeIsWhereOthersEnd` | bud/src/bud_format_huffman.rs:57-70 | a code, as a share of the code space, is where the codes of the shorter, and of the equally long smaller symbols end |
| `Canonical.DecodingIsUnique` | bud/src/bud_format_huffman.rs:157-187 | of two messages that the same bits begin with, one begins the other |
| `BitPacking.PushCode` | bud/src/bud_format_huffman.rs:72-85 | pushing a code into the 64-bit buffer appends its bits, as long as the buffered bits fit |
| `BitPacking.PackedBit` | bud/src/bud_format_huffman.rs:72-90 | bit k of the message is bit 7 - k mod 8 of byte k / 8 |
| `HuffmanCodec.CountBytes` | bud/src/bud_format_huffman.rs:36-39 | how often each byte occurs |
| `HuffmanCodec.WriteTable` | bud/src/bud_format_huffman.rs:45-56 | the used symbols and their lengths, in symbol order |
| `Formats.EnvelopeBytes` | bud/src/bud_format_huffman.rs:35-56 | the envelope before the body: magic, version, length, number of different bytes, and each byte with its code length |
| `HuffmanCodec.SortedSymbols` | bud/src/bud_format_huffman.rs:59-60 | the used symbols sorted by length, then symbol |
| `HuffmanCodec.AssignCodes` | bud/src/bud_format_huffman.rs:57-70 | every used symbol gets its canonical code, if the codes stay below 64 bits; the shifts are those of a 64-bit word |
| `HuffmanCodec.PackMessage` | bud/src/bud_format_huffman.rs:72-90 | the body is the code words of the message, most significant bit first, the last byte filled with zeros, as long as the buffer holds them |
| `HuffmanCodec.Compress` | bud/src/bud_format_huffman.rs:35-91 | for every message: the header and the table of its code lengths, then its packed code words if none is longer than 57 bits |
| `HuffmanCodec.ReadBackTable` | bud/src/bud_format_huffman.rs:45-121 | reading the table that was written gives back the lengths |
| `HuffmanCodec.ParseEnvelope` | bud/src/bud_format_huffman.rs:94-122 | the sections of the envelope, or a refusal of every malformed one |
| `HuffmanCodec.KraftCheck` | bud/src/bud_format_huffman.rs:278-294 | passed exactly by lengths of at most 32 bits within the Kraft bound |
| `HuffmanCodec.BuildTables` | bud/src/bud_format_huffman.rs:142-156 | the count, first-code and symbol tables of the canonical code |
| `HuffmanCodec.MessageUnique` | bud/src/bud_format_huffman.rs:157-187 | an envelope has at most one message |
| `HuffmanCodec.Decompress` | bud/src/bud_format_huffman.rs:94-188 | for every input: the message whose code words the body starts with, and a refusal exactly when there is none or a check fails |
| `HuffmanCodec.RoundTrip` | bud/src/bud_format_huffman.rs:35-188 | decompressing what was compressed gives back the message exactly when it is at most 4 GiB with no code above 32 bits, and is refused otherwise |
| `HuffmanCodec.ShortMessagesComeBack` | bud/src/bud_format_huffman.rs:35-188 | every message below 2 Fib(34) - 1 = 11,405,773 bytes comes back |
| `HuffmanLimit.LeastIsReached` | bud/src/bud_format_huffman.rs:193-276 | the bound on the depth is sharp: for every depth from three on, frequencies that come to exactly 2 Fib(d + 1) - 1 reach it |
| `HuffmanLimit.LosslessnessFails` | bud/src/bud_format_huffman.rs:138-141 | a message of exactly 11,405,773 bytes whose envelope is refused, so that bound is the best there is |
| `Bft.MessageBinds` | bud/src/bud_format_bft.rs:84-92 | a signed message determines the voter, the pipe and the ratio bits, whatever the length of the name |
| `Bft.NewValidators` | bud/src/bud_format_bft.rs:40-50 | a set is accepted exactly when it is not empty and no key is repeated, with the right error otherwise |
| `Bft.Validators.Quorum` | bud/src/bud_format_bft.rs:60-72 | the quorum n - (n - 1)/3 is floor(2n/3) + 1 and never more than n |
| `Bft.QuorumsOverlap` | bud/src/bud_format_bft.rs:60-72 | any two quorums share at least f + 1 validators |
| `Bft.HonestReachQuorum` | bud/src/bud_format_bft.rs:60-72 | all but f validators are a quorum |
| `Bft.Verify` | bud/src/bud_format_bft.rs:130-183 | the verdict with the first objection winning, for every certificate |
| `Bft.VerdictExactly` | bud/src/bud_format_bft.rs:84-183 | accepted exactly when the quorum is right and reached, no key votes twice, and every vote is by a member, for the pipe and the ratio of the certificate, with a signature of 64 bytes that verifies under its key over the tag, the length of the name, the name, the pipe and the ratio bits |
| `Bft.ObjectionExactly` | bud/src/bud_format_bft.rs:130-176 | what each objection says of the votes |
| `Bft.SignatureObjection` | bud/src/bud_format_bft.rs:95-107 | an objection to a signature names the first vote at fault: its length, its key or its verification |
| `Bft.DisagreementConvicts` | bud/src/bud_format_bft.rs:130-183 | two accepted certificates with different ratios for one pipe convict more than f members, each by a vote in the one and a vote in the other that sign different messages |
| `Bft.Agreement` | bud/src/bud_format_bft.rs:60-183 | whatever votes were cast: while at most f members cast conflicting votes for a pipe, all accepted certificates made of cast votes carry one ratio for it |
| `Bft.AddVote` | bud/src/bud_format_bft.rs:223-229 | adding a vote keeps the groups complete, disjoint and in ascending order |
| `Bft.Largest` | bud/src/bud_format_bft.rs:230-233 | the last of the largest groups |
| `Bft.FinalizeRatio` | bud/src/bud_format_bft.rs:198-244 | the outcome for every list of votes: the error that comes first, or the certificate of a group that reaches quorum; the final check never fails |
| `Bft.OneCarries` | bud/src/bud_format_bft.rs:219-237 | among votes that may be counted at most one group reaches quorum |
| `Bft.IssuedExactly` | bud/src/bud_format_bft.rs:198-244 | a certificate is issued exactly when the votes are from distinct members with valid signatures and some group reaches quorum; it is accepted, and for that group |
| `Bft.IssuedIsSigned` | bud/src/bud_format_bft.rs:198-244 | a certificate that is issued holds every vote for its pipe and ratio, in the order they came, each by a member and with a signature that verifies over the bytes written out |
| `Bft.RefusalExactly` | bud/src/bud_format_bft.rs:198-237 | what each refusal of a count says of the votes |
| `Bft.HonestDecide` | bud/src/bud_format_bft.rs:198-244 | when all but f members vote for one ratio, it is certified whatever the others vote |
| `Bft.OrderDoesNotMatter` | bud/src/bud_format_bft.rs:186-244 | reordering the votes changes neither whether a certificate is issued nor its pipe, ratio and votes |
| `Das.PairUp` | bud/src/bud_format_das.rs:50-62 | the level above, the last node of an odd level paired with itself |
| `Das.DasRoot` | bud/src/bud_format_das.rs:27-64 | the top of the tree over the chunk hashes, and the tagged empty root for no chunks |
| `Das.RootExactly` | bud/src/bud_format_das.rs:27-64 | the root is the node at the least height that spans the chunks, where a node hashes its tag, the left and then the right node below, the left again without a right, and a leaf its tag, length and bytes |
| `Das.Prove` | bud/src/bud_format_das.rs:77-129 | the siblings on the way to the root; refused exactly for an index past the end |
| `Das.Verify` | bud/src/bud_format_das.rs:132-153 | accepted exactly when climbing from the leaf along the path reaches the root |
| `Das.ProofsVerify` | bud/src/bud_format_das.rs:27-153 | the honest proof of every chunk is accepted, odd levels included |
| `Das.PathLength` | bud/src/bud_format_das.rs:132-153 | an accepted path is as long as the tree is deep, if nothing hashed collides |
| `Das.ProofsAreSound` | bud/src/bud_format_das.rs:132-153 | an accepted leaf is a chunk of the file with its honest path, whatever index is claimed |
| `Das.AcceptedExactly` | bud/src/bud_format_das.rs:132-153 | which proofs a root accepts: a chunk, its honest path, and an index that climbs as the chunk's does |
| `Das.PositionsAreBound` | bud/src/bud_format_das.rs:132-153 | for an index inside the file, exactly the chunk there with its honest path is accepted |
| `Das.PositionPastTheEnd` | bud/src/bud_format_das.rs:132-153 | the last of three chunks is also accepted as the fourth |
| `Checkpoints.PreimageBinds` | bud/src/bud_format_checkpoint.rs:59-72 | the hashed bytes determine every field of a checkpoint |
| `Checkpoints.VerifyChain` | bud/src/bud_format_checkpoint.rs:78-95 | accepted exactly when every hash is right and every link names the hash before it, from the zero genesis |
| `Formats.CheckpointBytes` | bud/src/bud_format_checkpoint.rs:59-72 | the hashed bytes of a checkpoint, field by field |
| `Checkpoints.LastHashBindsHistory` | bud/src/bud_format_checkpoint.rs:59-95 | two accepted chains with equal last hashes are equal in length and every field, if nothing collides or hashes to zero |
| `Blocks.PreimageBinds` | bud/src/bud_format_block.rs:78-96 | the hashed bytes determine every field of a block, although they carry no challenge count |
| `Blocks.ToBlob` | bud/src/bud_format_block.rs:134-155 | the blob of a block |
| `Blocks.ParseBlob` | bud/src/bud_format_block.rs:157-227 | the block of a blob, or a refusal |
| `Blocks.BlobExactly` | bud/src/bud_format_block.rs:134-227 | a blob is accepted exactly when it is the written form of a block with the right hash, and as that block |
| `Formats.BlockBytes` | bud/src/bud_format_block.rs:78-155 | the hashed bytes of a block and its blob, field by field |
| `FastCdc.Split` | bud/src/bud_format_fastcdc.rs:169-226 | the chunks join to the data, carry their content ids, and each ends where the hash of its content says; refused exactly for no data or bad sizes |
| `FastCdc.PiecesExactly` | bud/src/bud_format_fastcdc.rs:169-238 | the chunks are exactly the pieces that join to the data and end, between the least and the greatest size, at the first place where the gear hash, written as a fold of rotate, multiply and add, ends in as many zero bits as the logarithm of the average |
| `FastCdc.Scan` | bud/src/bud_format_fastcdc.rs:185-217 | the scan with one rolling hash cuts where the specification on suffixes cuts |
| `FastCdc.PiecesAreWhole` | bud/src/bud_format_fastcdc.rs:169-247 | the chunks concatenate to the input, none above the maximum, none but the last below the minimum |
| `FastCdc.CutsFollowContent` | bud/src/bud_format_fastcdc.rs:195-211 | after any cut the chunks depend only on the bytes that follow |
| `FastCdc.EditsStayLocal` | bud/src/bud_format_fastcdc.rs:195-211 | two inputs with a common rest from a cut of each have the same chunks from there |
| `Chunks.Join` | bud/src/bud_format_container.rs:151-158 | the data of the chunks, end to end |
| `Structural.SplitJson` | bud/src/bud_format_container.rs:60-103 | the text cut at exactly the commas of the outermost array outside strings, each at the head of its piece |
| `Utf8.Utf8Exactly` | bud/src/bud_format_container.rs:65-68 | the byte strings taken for text are exactly the encodings of sequences of code points |
| `JsonCuts.ArrayCuts` | bud/src/bud_format_container.rs:60-103 | for every text of an array, described by a grammar of strings with escapes and nested brackets: the commas where it is cut are those between its items |
| `JsonCuts.ArrayIsSplit` | bud/src/bud_format_container.rs:60-103 | so its pieces end exactly before those commas |
| `Structural.SplitLines` | bud/src/bud_format_container.rs:104-113 | the data cut after exactly the newlines |
| `Structural.SplitFixed` | bud/src/bud_format_container.rs:126-136 | the data cut at exactly the multiples of 65536 |
| `Structural.Split` | bud/src/bud_format_container.rs:54-113 | every kind and every input: the pieces join to it, none is empty, and the cuts are exactly those of the kind |
| `Structural.PieceBetween` | bud/src/bud_format_container.rs:54-113 | piece i is what lies between two neighbouring cuts of the kind |
| `Structural.PiecesAreLines` | bud/src/bud_format_container.rs:104-113 | the pieces of text are its lines, each with its newline |
| `Structural.PiecesAreBlocks` | bud/src/bud_format_container.rs:126-136 | the pieces of anything else are blocks of 65536 bytes, the last one at most as long |
| `Structural.Gather` | bud/src/bud_format_container.rs:560-595 | the gathered chunks of the specification: same content, a subset of the cuts, every chunk either a piece above the minimum as it was or within the limit, and no two neighbours left that could have been merged |
| `Structural.GatheringIsSound` | bud/src/bud_format_container.rs:560-595 | what the gathering keeps of any pieces: content, names, cuts, sizes and the distance of neighbours |
| `Structural.GatheredInGroups` | bud/src/bud_format_container.rs:560-595 | the gathered chunks are the groups of the pieces: a large piece alone, or a small one and all that follow it up to the limit |
| `Structural.SplitCompact` | bud/src/bud_format_container.rs:555-595 | splitting and gathering as specified, for every kind and minimum; the chunks join back to the input |
| `Structural.GatheredBlocksAreSmall` | bud/src/bud_format_container.rs:126-136 | what is cut in blocks gives no chunk above the block or the limit |
| `Container.CodesNameCodecs` | bud/src/bud_format_container.rs:193-220 | registered codes and codecs correspond; every other code is the unknown codec |
| `Container.NewFile` | bud/src/bud_format_container.rs:391-415 | refused exactly above the limits on count, total and chunk size; otherwise the header describes the chunks |
| `Container.Encode` | bud/src/bud_format_container.rs:417-428 | the bytes of a file |
| `Formats.ContainerHead` | bud/src/bud_format_container.rs:243-275 | the first 61 bytes of a container file, field by field, the root digest written out |
| `Formats.ContainerTail` | bud/src/bud_format_container.rs:417-428 | the rest: length, content id and data of every chunk in order |
| `Bytes.LeDigit` | bud/src/bud_format_container.rs:267-275 | byte i of a little-endian number is its digit of 256 to the i |
| `Container.Decode` | bud/src/bud_format_container.rs:434-498 | the strict reader with its cursor, for every byte string |
| `Container.DecodeInvertsEncode` | bud/src/bud_format_container.rs:417-498 | reading inverts writing for every file built from chunks with their ids |
| `Container.AcceptedExactly` | bud/src/bud_format_container.rs:434-498 | exactly which byte strings are accepted and as what: the written form, up to the code of an unknown codec and the digest-length byte |
| `Container.DigestLengthIgnored` | bud/src/bud_format_container.rs:179-189 | the digest-length byte has no effect on decoding |
| `Container.TruncationRefused` | bud/src/bud_format_container.rs:434-498 | no proper prefix of an accepted file is accepted |
| `Container.RootBindsContent` | bud/src/bud_format_container.rs:246-264 | files with equal root digests have equal chunks, if nothing collides |
| `Restoring.NewZstd` | bud/src/bud_format_container.rs:377-389 | every chunk compressed and renamed; refused if one does not compress or the limits are passed |
| `Restoring.NewCompressed` | bud/src/bud_format_container.rs:359-371 | every chunk Huffman-coded and renamed |
| `Restoring.RestoreOriginal` | bud/src/bud_format_container.rs:505-525 | the chunks opened in order and joined, refused at the first that does not open |
| `Restoring.RawRestores` | bud/src/bud_format_container.rs:505-525 | chunks stored as they are come back as they are |
| `Restoring.CodedRestores` | bud/src/bud_format_container.rs:359-525 | a Huffman container restores its content exactly when every chunk stays within the decoder's limits |
| `Restoring.ZippedRestores` | bud/src/bud_format_container.rs:377-525 | a zstd container restores its content |
| `Restoring.ZstdContainerIsLossless` | bud/src/bud_format_container.rs:377-525 | written, read back and restored, the content is what went in |
| `LogLine.ParsedExactly` | bud/src/bud_format_logfield.rs:53-122 | a line is taken apart exactly when it is the written form of well-formed fields, and into those fields |
| `LogField.AcceptedExactly` | bud/src/bud_format_logfield.rs:135-178 | the transform accepts exactly the texts, not empty and not too long, of well-formed log lines |
| `LogField.Collect` | bud/src/bud_format_logfield.rs:155-160 | the values of every line in seven columns, or a refusal if one line does not parse |
| `LogField.ToBinary` | bud/src/bud_format_logfield.rs:161-173 | a column of decimal numbers rewritten in place as little-endian bytes |
| `LogField.Encode` | bud/src/bud_format_logfield.rs:135-179 | the columns of the specification |
| `LogField.EncodingExactly` | bud/src/bud_format_logfield.rs:53-179 | the columns of a text hold c exactly when the text is the lines written from some well-formed fields and c holds those fields, numbers in their binary width |
| `LogField.Decode` | bud/src/bud_format_logfield.rs:182-216 | the lines of the columns, or a refusal of text or numbers that do not fit |
| `LogField.TransformIsLossless` | bud/src/bud_format_logfield.rs:135-216 | whatever is accepted comes back byte for byte |
| `LogField.ToBlob` | bud/src/bud_format_logfield.rs:225-243 | the blob of the columns |
| `Formats.LogBlobBytes` | bud/src/bud_format_logfield.rs:225-243 | the blob of the columns, field by field, and the digest of what goes before |
| `LogField.ParseBlob` | bud/src/bud_format_logfield.rs:245-298 | the columns of a blob, or a refusal |
| `LogField.BlobExactly` | bud/src/bud_format_logfield.rs:225-298 | a blob is accepted exactly when it is the written form of columns it can carry, and as those |
| `LogField.EncodingIsStorable` | bud/src/bud_format_logfield.rs:135-243 | the columns of a log below 4 GiB always can be carried |
| `LogField.BlobIsSmall` | bud/src/bud_format_logfield.rs:225-243 | the blob is at most four times the log and 128 bytes |
| `Columnar.CellReads` | bud/src/bud_format_columnar.rs:249-316 | a value in a column that keeps it is read back as it was, of every type; in a text column, if the library reads back what it wrote for that value |
| `Columnar.AddRecord` | bud/src/bud_format_columnar.rs:180-199 | one record added: values in their columns, a column of mixed types turned into text, refused for an oversized value |
| `Columnar.SortRecords` | bud/src/bud_format_columnar.rs:157-176 | the order-free mode takes every record once, in the order of the key-by-key comparison, ties in the order they came in |
| `Columnar.RecordOrder` | bud/src/bud_format_columnar.rs:157-176 | the first key under which two records differ decides their order |
| `Columnar.TextOrder` | bud/src/bud_format_columnar.rs:209-220 | texts compare byte by byte as in a dictionary |
| `Columnar.Encode` | bud/src/bud_format_columnar.rs:112-206 | the table of an array of regular records, as they stand or sorted; refused exactly otherwise |
| `Columnar.ExactTableExactly` | bud/src/bud_format_columnar.rs:112-206 | in exact mode a text has a table exactly when it is an array of regular records within the limits, and the table holds each value under its key, in order, with the type its column calls for |
| `Columnar.ToBlob` | bud/src/bud_format_columnar.rs:319-374 | the blob of a table, refused exactly for a bad shape or a value its column cannot carry |
| `Formats.ColumnarBlobBytes` | bud/src/bud_format_columnar.rs:319-374 | the blob of a table, field by field, and the digest of what goes before |
| `Columnar.ParseBlob` | bud/src/bud_format_columnar.rs:377-518 | the table of a blob, or a refusal |
| `Columnar.BlobExactly` | bud/src/bud_format_columnar.rs:319-518 | exactly which blobs are accepted and as what: the written form with the right digest, where each cell may be spelled in any way that reads as its value |
| `Columnar.EncodedIsStored` | bud/src/bud_format_columnar.rs:112-518 | whatever is encoded is written, and it is read back unchanged exactly when the library reads back what it wrote for the values in text columns that are not strings |
| `Columnar.Decode` | bud/src/bud_format_columnar.rs:223-246 | the array of the rows, written compactly; refused exactly without rows, for unequal columns or a text above the ceiling |
| `Columnar.SameRecord` | bud/src/bud_format_columnar.rs:112-246 | a rebuilt record has the same value under every key |
| `Columnar.RecordsComeBack` | bud/src/bud_format_columnar.rs:112-246 | the same records come back, in the order they were taken in, each with the first record's key order |
| `Columnar.ExactWhenPlain` | bud/src/bud_format_columnar.rs:16-19 | compact text with one key order throughout comes back byte for byte; and no other text does, if the library reads back the array it wrote |
| `Columnar.KeyOrderIsLost` | bud/src/bud_format_columnar.rs:16-19 | a compact text of two records that comes back different, because the second lists its keys in another order |
| `ShardPack.PackShards` | bud/src/bud_format_engine.rs:177-199 | six records of the Cauchy code over four padded parts, refused exactly for an empty or oversized container |
| `Formats.PackBytes` | bud/src/bud_format_engine.rs:152-199 | a pack is 4, 2, the length and six records of digest, length and shard; the first four shards are the container in order, filled up with zeros |
| `ShardPack.OpenShardPack` | bud/src/bud_format_engine.rs:208-248 | for every byte string: the framed records, those that pass their test, the first four decoded and cut to length |
| `ShardPack.FourIntactSuffice` | bud/src/bud_format_engine.rs:177-248 | a framed pack gives back the container, trailing zeros included, exactly when at least four of its records are intact, and None otherwise |
| `ShardPack.TwoLossesSurvived` | bud/src/bud_format_engine.rs:177-248 | any two records may be anything that fails its test |
| `ShardPack.RotIsSeen` | bud/src/bud_format_engine.rs:152-160 | with its digest kept and no collision, a changed shard never passes its test |
| `Engine.ApplyTransform` | bud/src/bud_format_engine.rs:298-332 | the transform chosen for the detected format and its result |
| `Engine.TransformExactly` | bud/src/bud_format_engine.rs:298-332 | in log fields exactly when the file is detected as a log and is the text of log lines, in columns exactly when it is detected as JSON and is an array that can be a table, as it is otherwise; and the blob that is then stored |
| `Engine.Store` | bud/src/bud_format_engine.rs:294-386 | the outcome of storing, for every input, chunker and protection; what the outcome holds is `Engine.StoredExactly` |
| `Engine.SplitByFormat` | bud/src/bud_format_engine.rs:333-352 | the structural chunker cuts by the detected format: at the commas of a JSON array, after lines, and in blocks otherwise |
| `Engine.StoredExactly` | bud/src/bud_format_engine.rs:294-386 | what is stored: the transform and the content the file calls for, cut by its hash or gathered from the cuts of its format, each piece compressed into one chunk of a container that is read back as it is, packed into shards or not |
| `Engine.TransformUndone` | bud/src/bud_format_engine.rs:449-463 | undoing the transform gives the file, or for columns its JSON as written by the library, provided the texts in its cells come back |
| `Engine.ChunksBelowCeiling` | bud/src/bud_format_engine.rs:294-352 | however long the transformed content is, every chunk of it stays below the ceiling of the decompressor |
| `Engine.RestoreContainer` | bud/src/bud_format_engine.rs:438-464 | the outcome of restoring a container or shard pack, for every byte string |
| `Engine.RestoreFull` | bud/src/bud_format_engine.rs:468-480 | the outcome of restoring a record, for every byte string |
| `Formats.RecordBytes` | bud/src/bud_format_engine.rs:127-144 | the record of a stored file, field by field |
| `Engine.ContainerRestored` | bud/src/bud_format_engine.rs:294-464 | the container of every stored file is restored to what undoing the transform of its content gives: the file, or for columns its JSON if the cells come back |
| `Engine.TwoLossesRestored` | bud/src/bud_format_engine.rs:177-464 | with erasure, also after any two of the six shards are lost |
| `Engine.CutContainerRefused` | bud/src/bud_format_engine.rs:131-144 | a container cut short by its 32-bit length is refused |
| `Engine.StoredIsRestored` | bud/src/bud_format_engine.rs:131-480 | the full round trip for every file, chunker and protection; refused exactly when the container length does not fit 32 bits, which it always does with erasure |
| `Engine.StoreIsLossless` | bud/src/bud_format_engine.rs:294-480 | without columns every file comes back byte for byte, whatever the JSON library does |
| `Engine.ColumnsAreLosslessWhenPlain` | bud/src/bud_format_engine.rs:306-321 | with columns, and cells that come back, it does if it was compact JSON with one key order; and only then, if the library reads back the array it wrote |

## Left out

- HuffmanCodec.Compress: says nothing of the body when a code is longer than 57 bits, where the crate's 64-bit buffer loses bits; such an envelope is always refused (`HuffmanCodec.RoundTrip`).
- LogField.Decode: asks, when there are lines, for seven columns none shorter than the first, as the crate's indexing does; everything its blob reader accepts has that shape.
- Columnar.Decode: asks, when there are rows, for a column for every key, as the crate's indexing does; everything its blob reader accepts has that shape.
- Columnar.SortRecords: sorts by insertion, where the crate calls the library's stable sort; the order of numbers as doubles is a parameter.
- LogLine.ParsedExactly: is about bytes; the crate searches characters, which gives the same answers because every character it looks for is ASCII.
- Bft.NewValidators: repeated keys are found by comparing each key with those before it, where the crate sorts and compares neighbours.
- SHA3-256, ed25519, zstd and JSON parsing and printing: parameters, as described above.
- The format catalogue, the PACT, production and steps hashes and the measured ratio in the engine's record: the record carries them after the container and restoring does not read them.
- `DasSampler`: its pick loop runs on another generator, a xorshift, whose period is not proved here; the proofs it checks are modelled.
- `DasOwnership`, `RegenerationBlock::verify`, `Checkpoint::ratio_plausible`, `CauchyMds::multiplier`: one-line records and comparisons.
- `engine_restore`, `engine_restore_raw` and `engine_store_tiered`: the first two repeat `engine_restore_full` without undoing the transform, the third adds a storage plan next to a stored file.
- The other modules of the crate (catalogue, culling, genomic, lowrank, markdown, media, model, msr and so on): small records, constant tables, floating-point heuristics or easier round trips.
- Allocation limits and the absence of panics other than those that follow from the proofs that every index is in range.
