# MedorCoin node: verified model

A Dafny model of eight algorithmic cores of the MedorCoin node, each with the properties it is
there for. Loops and objects of the C++ code are methods and classes here, proved against
functions; the lemmas then speak about those functions for all inputs, all runs or all
interleavings.

| core | files |
|---|---|
| RLP codec | `Rlp.dfy`, `RlpGrammar.dfy` |
| CRC32C and the P2P message codec | `Crc32c.dfy`, `MessageCodec.dfy`, `FrameVerdicts.dfy`, `BlockWindows.dfy` |
| proof of work | `ProofOfWork.dfy`, `HeaderFormat.dfy`, `ParallelMining.dfy` |
| ledger behind `addBlock` | `LedgerState.dfy` (functions), `SupplyBound.dfy`, `LedgerRuns.dfy`, `LedgerFailures.dfy`, `LedgerEffects.dfy`, `LedgerVerdict.dfy`, `LedgerProvenance.dfy` (properties), `Blockchain.dfy` (class) |
| mempool | `MempoolState.dfy`, `MempoolLocks.dfy`, `MempoolRuns.dfy`, `MempoolVerdict.dfy`, `FeeRanking.dfy`, `Mempool.dfy` (class) |
| rate limiter | `RateLimiter.dfy` |
| Merkle tree | `Merkle.dfy` |
| Base58Check and BIP-39 | `Base58.dfy`, `Base58Decoding.dfy`, `Mnemonic.dfy` |

Shared: `ByteStrings.dfy`, `ChainTypes.dfy`, `OutpointKeys.dfy`, `MapSums.dfy`, `Arithmetic.dfy`,
`Wrappers.dfy`. `dafny verify dfyconfig.toml` checks the whole project.

Hash functions, signature recovery, clocks, entropy, the order in which hash tables are walked,
thread-pool schedules, abort flags and callbacks are parameters, and the results hold for every
choice of them. Machine integers are unbounded except where the source's width matters; there
the wrap-around is written out (`% U64_LIMIT`, saturating sums, truncating casts, `bv32`).

## What the proofs found

- RLP: the decoder accepts `0x81 0x05` and leading zeros in a length; a grammar says exactly which
  bytes it takes for which value. Re-encoding an accepted value is never longer than what was read,
  and gives the same bytes exactly when every header was minimal. The single byte `0x00` is a second spelling of the integer zero.
- Parallel mining: a reported block passes `validateHash` exactly when its difficulty is not 0, and
  blocks of difficulty 0 are reported.
- Ledger, late reward: `addBlock` reads the clock once to decide whether there is a coinbase and
  again when it checks the first transaction. A call is safe for all transaction lists exactly when
  it has a coinbase or the reward of the second reading fits between the unspent value and the
  supply. A schedule that never pays again after paying nothing guarantees that.
- Ledger, overflow: the value check is the intended one exactly when the outputs of a transaction
  add up to less than 2^64. The mempool guarantees this only for transactions that have inputs.
- Ledger, rollback: a failed application does not put spent inputs back, and rolling back erases
  every outpoint that carries the key of one of the block's outputs, older ones included; balances
  are not rolled back at all. The UTXO set comes back exactly when no output key was taken and the
  first input named is refused. Value can be lost by a failure, never created.
- Ledger, shares and fees: the miner's share is nine tenths of the reward exactly while 90 times the
  reward fits 64 bits, and the network fee is two per cent exactly for values below 2^63; above,
  the products wrap.
- Ledger, balances: they are credited for outputs and never debited for inputs, so they add up
  everything ever paid, and a failed block's payments stay credited. A payment refused because it
  would overflow a balance still costs the recipient its fee. The base fee can only fall, because a
  block's gas is never set.
- Mempool, locks: `addTransaction` keeps its stripe mutex while promoted orphans re-enter it, so the
  orphan cascade, though its nesting is bounded, can wait on itself for ever. It does so exactly
  when a stack of nested calls names one stripe twice; two ordinary offers suffice to get there.
- Mempool: `trimToCapacity` has nothing to do in any reachable pool. The age cutoff wraps while
  the clock is younger than the maximum age, and then everything is evicted. A transaction naming
  an input twice is admitted, but no block containing it is ever applied.
- Rate limiter: the janitor is invisible, and the rate bound holds, exactly when the idle timeout
  is at least the full refill time (in nanoseconds, less one). A token is free exactly above 10^9
  requests per second. A clock that goes back makes a key earn the same time twice.
- Addresses: a standard decoder reads the payload back except exactly when the payload has only zero
  bytes and its checksum begins with one more. No two payloads share an address even then.
- Merkle: two lists share a root exactly when the lower one and the level of its height in the
  other's tree pad to the same full tree, so `[a, b, c]` and `[a, b, c, c]` do, and so do a pair and
  the one-leaf list of its hash.
- Mnemonic: the generator's self-check never fails exactly when the first 2048 words exist and are
  distinct.

## Model

| member | source | states |
|---|---|---|
| Rlp.RoundTrip | src/crypto/rlp.cpp:182-368 | wherever the encoding of a nested value stands inside a larger buffer, decoding there gives the value and the offset just after it |
| Rlp.DecodeEncodeInContext | src/crypto/rlp.cpp:182-368 | the same with arbitrary bytes before and after |
| Rlp.PrefixFree | src/crypto/rlp.cpp:182-196 | no encoding is a proper prefix of another, and equal encodings come from equal values |
| Rlp.Normalisation | src/crypto/rlp.cpp:202-368 | an accepted value re-encodes to at most the bytes consumed, and to the same bytes exactly when all headers read were minimal |
| Rlp.AcceptedIsEncodable | src/crypto/rlp.cpp:32-56 | a value decodes back from its own encoding exactly when every payload length fits 64 bits |
| Rlp.NonMinimalFormAccepted | src/crypto/rlp.cpp:60-106 | two different inputs decode to one value: the decoder is more liberal than the encoder |
| RlpGrammar.DecoderTakesSpellings | src/crypto/rlp.cpp:58-368 | the decoder gives a value and an end exactly when the bytes between spell the value in a grammar that adds redundant lengths to the encoder's forms, at every depth |
| RlpGrammar.LeadingZeroLength | src/crypto/rlp.cpp:73-98 | 56 bytes under 0xB9 0x00 0x38 are accepted, though the encoder writes 0xB8 0x38 |
| RlpGrammar.KnownEncodings | src/crypto/rlp.cpp:32-196 | the encodings of dog, of the list of cat and dog, of the empty string and list are those of the RLP definition |
| RlpGrammar.KnownNesting | src/crypto/rlp.cpp:169-196 | so is that of the set-theoretic representation of three |
| RlpGrammar.KnownIntegers | src/crypto/rlp.cpp:137-152 | and those of 0, 15 and 1024 |
| Rlp.Windowing | src/crypto/rlp.cpp:292-368 | the result depends on the bytes from offset to nextOffset only, although children are decoded against the outer length |
| Rlp.ItemsTile | src/crypto/rlp.cpp:318-344 | the children of an accepted list tile its payload without gap or overlap |
| Rlp.AlwaysProgresses | src/crypto/rlp.cpp:329-332 | the no-progress error is never raised, at any depth |
| Rlp.UIntRoundTrip | src/crypto/rlp.cpp:137-286 | integers of either width survive encoding and decoding in any context |
| Rlp.UIntAccepted | src/crypto/rlp.cpp:241-286 | an accepted integer fits its width and was written as the encoder writes it exactly when its header is minimal and it is not the byte 0x00 |
| Rlp.JoinedEncodings | src/crypto/rlp.cpp:169-196 | encodeList over encoded children is the encoding of the list value |
| Rlp.MinimalBytes | src/crypto/rlp.cpp:145-150 | the shift-and-reverse loop gives the shortest big-endian form |
| Rlp.EncodeLength | src/crypto/rlp.cpp:32-56 | appends the length prefix and nothing else |
| Rlp.EncodeBytes | src/crypto/rlp.cpp:112-129 | appends the string form, the single-byte case included |
| Rlp.EncodeUInt | src/crypto/rlp.cpp:137-152 | appends the string form of the minimal bytes |
| Rlp.EncodeUInt256 | src/crypto/rlp.cpp:154-167 | appends the string form of the number a 32-byte value denotes, leading zeros dropped |
| Rlp.EncodeList | src/crypto/rlp.cpp:169-180 | appends one header for the total size, then the items in order |
| Rlp.EncodeValue | src/crypto/rlp.cpp:182-196 | the recursive encoder appends exactly the encoding of the value |
| Rlp.DecodeLength | src/crypto/rlp.cpp:60-106 | the header loop computes payload length and start, with each error in its place |
| Rlp.SumIsExact | src/crypto/rlp.cpp:230 | adding start and length in 64 bits accepts exactly the payloads the true sum accepts |
| Rlp.DecodeBytes | src/crypto/rlp.cpp:202-239 | string decoding with all error cases, the end of the payload computed in 64 bits |
| Rlp.DecodeUInt64 | src/crypto/rlp.cpp:241-262 | at most 8 bytes, no leading zero |
| Rlp.DecodeUInt256 | src/crypto/rlp.cpp:264-286 | at most 32 bytes, no leading zero, right-aligned in 32 |
| Rlp.DecodeList | src/crypto/rlp.cpp:292-345 | the position loop computes the list of children or the first error; a payload end that wraps is not fully consumed |
| Rlp.DecodeValue | src/crypto/rlp.cpp:347-368 | dispatch by prefix |
| Crc32c.BuildCrcTable | src/message_codec.cpp:60-72 | slot i holds eight register steps from i |
| Crc32c.Compute | src/message_codec.cpp:74-101 | the table-driven loop gives the checksum of the bit-at-a-time reflected register, on every byte string |
| Crc32c.TableStep | src/message_codec.cpp:94-101 | one table lookup is eight single-bit feeds |
| Crc32c.FeedAsWord | src/message_codec.cpp:60-101 | up to 32 bits fed one by one fold as one word |
| Crc32c.StepsInjective | src/message_codec.cpp:60-72 | register steps lose no information |
| Crc32c.BurstDetected | src/message_codec.cpp:60-101 | damage inside any 32 consecutive bits changes the checksum, at every length and position |
| Crc32c.FourBytesAreABurst | src/message_codec.cpp:60-101 | any four consecutive bytes are such a window |
| Crc32c.BitOrder | src/message_codec.cpp:94-101 | the message fed is every byte's bits, lowest first |
| Crc32c.PromoteIsByte | src/message_codec.cpp:94-101 | a byte folded into the register is the byte itself, so the table slot is (crc ^ byte) & 0xFF |
| Crc32c.CheckValue | src/message_codec.cpp:60-101 | the checksum of the letter a is 0xC1D04330, the published CRC-32C value |
| MessageCodec.FrameRoundTrip | src/message_codec.cpp:107-202 | an encoded frame followed by anything decodes to itself and its own length |
| MessageCodec.AcceptedFrameIsEncoded | src/message_codec.cpp:146-202 | the bytes an accepted frame consumed are the encoding of that frame |
| MessageCodec.ProperPrefixIncomplete | src/message_codec.cpp:146-202 | every proper prefix of a frame is Incomplete, never an error or another frame |
| MessageCodec.BurstRejected | src/message_codec.cpp:184-195 | a payload damaged inside 32 consecutive bits is rejected with CrcMismatch |
| MessageCodec.VerdictIsStable | src/message_codec.cpp:146-202 | later bytes never change a verdict already given |
| MessageCodec.StreamRoundTrip | src/message_codec.cpp:107-202 | decoding concatenated frames by bytesConsumed returns exactly that list and leaves the tail |
| MessageCodec.ChunkingIsIrrelevant | src/message_codec.cpp:146-202 | how a byte stream is cut into reads does not change the frames obtained |
| FrameVerdicts.HeaderVerdict | src/message_codec.cpp:146-202 | on 13 bytes or more: BadMagic, UnknownType, FrameTooLarge, CrcMismatch and Incomplete, each for exactly which bytes |
| FrameVerdicts.IncompleteExactly | src/message_codec.cpp:146-202 | waiting means exactly that the bytes are a proper prefix of a header of admissible type and length followed by its payload |
| FrameVerdicts.WaitingEnds | src/message_codec.cpp:146-202 | 8 MB and 13 bytes always get a verdict other than Incomplete |
| FrameVerdicts.ShortIsIncomplete | src/message_codec.cpp:146-202 | fewer than 13 bytes never get another |
| FrameVerdicts.FrameLayout | src/message_codec.cpp:107-133 | the letters MDRO, the type, the length, the checksum and the payload stand where the header comment puts them |
| FrameVerdicts.MagicBytes | include/message_codec.h:10-14 | the magic number in network order is these four letters and nothing else is |
| FrameVerdicts.TypeCodes | include/message_codec.h:49-62 | the seven type codes, and no other byte is a type |
| MessageCodec.AppendHeader | src/message_codec.cpp:119-130 | writes the 13 header bytes in place |
| MessageCodec.EncodeFrame | src/message_codec.cpp:107-133 | appends the frame or refuses a payload over 8 MB and leaves the buffer alone |
| MessageCodec.DecodeFrame | src/message_codec.cpp:146-202 | magic, type, length cap, completeness and checksum in that order |
| MessageCodec.TxAccepted | src/message_codec.cpp:298-333 | a transaction is decoded from a buffer exactly when its encoding stands at the front and it is within the decoder's limits |
| MessageCodec.TxRoundTrip | src/message_codec.cpp:256-333 | decode after encode restores the wire fields exactly when the limits hold |
| MessageCodec.TxFieldsStand | src/message_codec.cpp:256-288 | a buffer begins with a transaction's encoding exactly when each of the twelve fields stands at its offset |
| MessageCodec.WireLength | src/message_codec.cpp:256-288 | 132 bytes besides the address, the hash and the data |
| MessageCodec.BlockRoundTrip | src/message_codec.cpp:335-405 | decodeBlock after encodeBlock restores all wire fields of the block and of each transaction, in order, exactly when the limits hold |
| MessageCodec.BlockFieldsStand | src/message_codec.cpp:335-363 | the offset of each field in an encoded block |
| BlockWindows.BlockAccepted | src/message_codec.cpp:372-405 | decodeBlock answers a block exactly when the buffer begins with its head and its transactions in windows within the cap; bytes that pad a window or follow the last are ignored |
| MessageCodec.ParsedBlockRange | src/message_codec.cpp:372-405 | whatever decodeBlock accepts is within the encoder's limits |
| MessageCodec.TxFits | src/message_codec.cpp:256-288 | an encodable transaction's length fits the 32-bit length prefix |
| MessageCodec.AppendUint64 | src/message_codec.cpp:208-213 | eight big-endian bytes appended |
| MessageCodec.AppendString | src/message_codec.cpp:215-223 | length prefix and bytes appended |
| MessageCodec.ReadUint64Safe | src/message_codec.cpp:229-236 | a bounds-checked big-endian read |
| MessageCodec.ReadStringSafe | src/message_codec.cpp:238-250 | a bounds-checked string read with the 8 MB cap |
| MessageCodec.EncodeTransaction | src/message_codec.cpp:256-288 | appends the twelve fields in wire order |
| MessageCodec.AppendTransaction | src/message_codec.cpp:354-362 | a placeholder patched afterwards holds the length of the transaction written behind it |
| MessageCodec.EncodeBlock | src/message_codec.cpp:335-363 | appends the header fields, the count and every length-prefixed transaction |
| MessageCodec.DecodeTransaction | src/message_codec.cpp:298-333 | field by field, each read bounds-checked |
| MessageCodec.DecodeTransactions | src/message_codec.cpp:391-401 | the loop over length-prefixed transactions |
| MessageCodec.DecodeBlock | src/message_codec.cpp:372-405 | header fields, count cap, transactions |
| ProofOfWork.Splice | src/proof_of_work.cpp:104-123 | pre-nonce bytes, nonce and post-nonce bytes joined are the serialised header with that nonce |
| ProofOfWork.WritePreNonce | src/proof_of_work.cpp:380-387 | the buffer before the nonce |
| ProofOfWork.WritePostNonce | src/proof_of_work.cpp:389-393 | the buffer after the nonce |
| ProofOfWork.SerializeHeader | src/proof_of_work.cpp:104-123 | the whole header, string lengths cut to 32 bits |
| ProofOfWork.HashMeetsTarget | src/proof_of_work.cpp:146-152 | the loop decides the leading-zero condition |
| ProofOfWork.TargetIsNumeric | src/proof_of_work.cpp:146-152 | the leading-zero condition on the hex form is a numeric bound on the digest |
| HeaderFormat.HeaderReadsBack | src/proof_of_work.cpp:104-123 | a reader of the documented format gets all nine fields back exactly when the three lengths and the difficulty fit 32 bits |
| HeaderFormat.FieldsStand | src/proof_of_work.cpp:104-123 | the offset of each field in the header |
| HeaderFormat.HexReadsBack | src/proof_of_work.cpp:19-28 | the hexadecimal form determines the digest |
| HeaderFormat.ValidHashExact | src/proof_of_work.cpp:162-168 | a hash is valid exactly when it is the header's digest, the difficulty is 1 to 64 and the digest lies below 2^(256 - 4 * difficulty) |
| HeaderFormat.HashBindsFields | src/proof_of_work.cpp:104-168 | blocks valid under one hash agree in all nine fields, unless the digest collides on their headers |
| ProofOfWork.Mine | src/proof_of_work.cpp:280-359 | a found nonce is the first to meet the target, block and hash agree with it; otherwise every nonce tried missed it, up to the 64-bit end of the range |
| ParallelMining.StepKeepsInv | src/proof_of_work.cpp:427-496 | every step of every worker keeps the range, election and publication invariant |
| ParallelMining.RunKeepsInv | src/proof_of_work.cpp:369-499 | so does every interleaving, the relaxed load of the found flag reading old values at will |
| ParallelMining.FoundIsValid | src/proof_of_work.cpp:369-532 | a reported nonce and hash are of one attempt that met the target, and the updated block passes validateHash exactly when its difficulty is not 0 |
| ParallelMining.ZeroDifficultyReported | src/proof_of_work.cpp:162-168 | a run that reports a block of difficulty 0, which validateHash refuses |
| ParallelMining.NotFoundIsExhaustive | src/proof_of_work.cpp:369-532 | with no result, no abort and no stop, no nonce below maxNonce meets the target and each was hashed once |
| ParallelMining.RangesFit | src/proof_of_work.cpp:406-412 | the per-thread ranges are adjacent and end at maxNonce |
| ParallelMining.StepDecreases | src/proof_of_work.cpp:427-496 | every step uses up a bounded amount of remaining work |
| ParallelMining.RunIsBounded | src/proof_of_work.cpp:369-499 | no interleaving goes on for ever |
| ParallelMining.NeverStuck | src/proof_of_work.cpp:369-499 | until all workers are done some step is possible |
| SupplyBound.CheckedInputsMeaning | src/blockchain.cpp:327-373 | inputs that pass are present, unmarked and distinct, and their wrapped sum is their value |
| SupplyBound.ValueCheckExact | src/blockchain.cpp:374-380 | the check of outputs against inputs means what it says exactly when the outputs add up to less than 2^64 |
| SupplyBound.SpendMeaning | src/blockchain.cpp:392-399 | spending all inputs removes exactly those outpoints |
| SupplyBound.AddMeaning | src/blockchain.cpp:401-408 | adding outputs raises the value outside any set of outpoints by at most their sum |
| SupplyBound.AddOutputsKeys | src/blockchain.cpp:401-408 | outputs go in exactly when none of their keys is taken, and nothing else changes |
| SupplyBound.ApplyKeepsValue | src/blockchain.cpp:385-438 | applying checked transactions never raises unspent value plus value still to be spent, even if an outpoint is re-created on the way |
| SupplyBound.ApplyBlockValue | src/blockchain.cpp:385-438 | a checked block raises the unspent value by at most its first transaction's outputs |
| SupplyBound.RollbackMeaning | src/blockchain.cpp:440-449 | rolling back removes the block's outputs and nothing else |
| SupplyBound.FailureDestroysOnly | src/blockchain.cpp:512-517 | after a failed application and rollback every entry left was there before, unchanged |
| SupplyBound.FirstFits | src/blockchain.cpp:460-481 | the first transaction of an accepted block pays the reward, or at most what the second clock reading allows when there was none |
| SupplyBound.AddBlockKeepsBound | src/blockchain.cpp:451-527 | accepted or failed, a call keeps unspent value <= supply <= maximum, and the reward clamp never wraps, if sums fit and a late reward fits under the supply |
| LedgerRuns.ScheduleExact | src/blockchain.cpp:272-274 | no passing of time brings a reward back exactly when, among the entries some time selects, none that pays follows one that does not |
| LedgerRuns.RewardNeverRevives | src/blockchain.cpp:261-275 | with such a schedule no reward is late |
| LedgerRuns.StartIsBounded | src/blockchain.cpp:36-40 | a node starting with an empty UTXO set is bounded exactly when the restored supply is within the maximum |
| LedgerRuns.RunKeepsBound | src/blockchain.cpp:292-527 | the bound holds after every list of accepted and failed calls each of which meets the two conditions where it starts, and the supply only grows |
| LedgerRuns.ScheduleMakesRunsSafe | src/blockchain.cpp:261-275 | a schedule that does not revive, a clock that does not go back and sums that fit make every run such a list |
| LedgerRuns.SupplyGrows | src/blockchain.cpp:518-519 | a call issues its clamped reward with one block, or nothing |
| LedgerRuns.SupplyIsIssued | src/blockchain.cpp:518-519 | the supply stays the sum of the rewards on the chain |
| LedgerRuns.LateRewardExact | src/blockchain.cpp:304-315 | a call is safe for every transaction list exactly when it has a coinbase or what the second clock reading allows still fits between the unspent value and the supply |
| LedgerRuns.LateRewardMints | src/blockchain.cpp:304-315 | otherwise a first transaction paying the whole late reward breaks the bound |
| LedgerRuns.OverflowMints | src/blockchain.cpp:374-380 | without the assumption on sums the bound fails, with or without a coinbase: outputs adding up to 2^64 pass the check |
| LedgerFailures.RollbackRestoresIff | src/blockchain.cpp:385-449 | rolling back a checked block restores the UTXO set exactly when no key of its outputs was taken and the first input it names is absent or not spendable |
| LedgerFailures.SpentInputLost | src/blockchain.cpp:512-517 | a checked block whose second input is not spendable yet fails and leaves its first input spent for good |
| LedgerFailures.RepeatedCoinbaseErases | src/blockchain.cpp:401-408 | a coinbase hash equal to that of a still unspent coinbase makes the block fail and the older output disappear |
| LedgerRuns.PaymentIsExact | src/blockchain.cpp:410-434 | a payment raises the balances by the output's value exactly: the network fee only moves |
| LedgerRuns.BalancesCountEveryOutput | src/blockchain.cpp:385-438 | an applied block raises the balances by all its outputs, whatever it spends |
| LedgerRuns.BaseFeeOnlyFalls | src/blockchain.cpp:245-259 | through addBlock the base fee stays at least 1, never rises, and stays put exactly in the cases listed |
| LedgerVerdict.AcceptedExactly | src/blockchain.cpp:451-527 | addBlock answers true exactly when there is a miner, mining and storing succeed, non-empty hashes are distinct, the first transaction pays at most the second reading's reward, every other one is well formed, signed and covered, no outpoint is named twice in the block, every input is spendable and every output key is free or spent by then |
| LedgerVerdict.ChecksExactly | src/blockchain.cpp:276-383 | the part of this that validateTransactions decides, as one flat condition on the list |
| LedgerVerdict.ApplyExactly | src/blockchain.cpp:385-438 | the application goes through exactly when all inputs are spendable and each output key is free or spent by the same or an earlier transaction |
| LedgerVerdict.AppliesExactly | src/blockchain.cpp:385-438 | the same with nothing known of the first transaction's inputs, which nobody checks |
| LedgerVerdict.AcceptedEffect | src/blockchain.cpp:385-438 | after an accepted call the unspent outputs are exactly the old ones less the block's inputs plus its outputs, each with its value, owner, height and coinbase mark |
| LedgerVerdict.CoinbasePaid | src/blockchain.cpp:463-477 | an accepted reward leaves two coinbase outputs, the miner's and the owner's, of the reward together |
| LedgerProvenance.RunKeepsRooted | src/blockchain.cpp:385-527 | after every list of accepted and failed calls each unspent output is recorded on the chain: in the block of its height, with its transaction, place, value, owner and coinbase mark |
| LedgerEffects.AcceptedIsSigned | src/blockchain.cpp:342-371 | if addBlock answers true, every transaction after the first with a non-zero r or s was signed for the address of each output it spends |
| LedgerEffects.AppliedEffect | src/blockchain.cpp:385-438 | an applied list that spends nothing it makes itself removes exactly its inputs and adds exactly its outputs, with their records |
| LedgerEffects.CoinbaseShares | src/blockchain.cpp:463-477 | the miner's is nine tenths rounded down exactly while 90 times the reward fits 64 bits |
| LedgerEffects.NetworkFeeExact | src/blockchain.cpp:29-34 | 9 up to 1000, above that two per cent exactly for values below 2^63 |
| LedgerEffects.PaidTo | src/blockchain.cpp:410-434 | one output's effect on every account: the recipient, the treasury and all others |
| LedgerEffects.RefusedPaymentCharged | src/blockchain.cpp:410-434 | a payment refused because it would overflow the balance still costs the recipient the fee |
| LedgerEffects.TreasuryCollects | src/blockchain.cpp:385-438 | an applied block pays the treasury the fee of every output but the first transaction's |
| LedgerEffects.RefusedUntouched | src/blockchain.cpp:454-511 | a call refused before the application changes nothing |
| LedgerEffects.FailedBlockStillPays | src/blockchain.cpp:512-517 | a block that fails after its coinbase keeps the miner and the owner credited with the whole reward |
| LedgerEffects.BlockRecord | src/blockchain.cpp:482-527 | what the new block records; it names the last block's hash, and a refused call adds none |
| LedgerEffects.RunKeepsLinked | src/blockchain.cpp:482-527 | after every list of calls each block names the hash of the one before |
| LedgerEffects.RewardSelects | src/blockchain.cpp:261-275 | the reward of the first threshold after the time since the first block, or of the last |
| LedgerEffects.RewardClamped | src/blockchain.cpp:460-462 | the reward is the scheduled one or what is left under the maximum, if that is less |
| LedgerEffects.BaseFeeStep | src/blockchain.cpp:245-259 | the base fee moves by an eighth, at least by one, in which direction and when |
| Blockchain.Blockchain.CalculateReward | src/blockchain.cpp:261-275 | the schedule loop picks the first threshold not yet reached, or the last reward |
| Blockchain.Blockchain.HasDuplicateTx | src/blockchain.cpp:277-290 | true exactly when a non-empty hash repeats |
| Blockchain.Blockchain.SumOutputs | src/blockchain.cpp:374-375 | the 64-bit wrapped sum |
| Blockchain.Blockchain.CheckInputs | src/blockchain.cpp:327-373 | the input loop of one transaction |
| Blockchain.Blockchain.ValidateTransactions | src/blockchain.cpp:292-383 | the whole check, as the predicate the lemmas are about |
| Blockchain.Blockchain.AddBalance | src/blockchain.cpp:209-219 | credits, or refuses an empty address or an overflow and changes nothing |
| Blockchain.Blockchain.DeductBalance | src/blockchain.cpp:221-232 | debits, or refuses and changes nothing |
| Blockchain.Blockchain.CreditOutput | src/blockchain.cpp:410-434 | credits the recipient, then moves the clamped fee to the treasury |
| Blockchain.Blockchain.ApplyBlockToState | src/blockchain.cpp:385-438 | the state after the loops, up to the first refusal |
| Blockchain.Blockchain.RollbackBlockFromState | src/blockchain.cpp:440-449 | the UTXO set after the backward loops |
| Blockchain.Blockchain.AdjustBaseFee | src/blockchain.cpp:245-259 | the new base fee |
| Blockchain.Blockchain.AddBlock | src/blockchain.cpp:451-527 | the whole new state and the answer; a bounded ledger stays bounded |
| OutpointKeys.OutpointKeyInjective | src/blockchain.cpp:329-330 | the key `hash:index` determines the outpoint, whatever characters the hash holds |
| MempoolState.InsertKeeps | src/mempool/mempool.cpp:258-270 | an admitted transaction keeps the agreement of the four collections and the limits |
| MempoolState.RemoveKeeps | src/mempool/mempool.cpp:284-298 | a removal keeps them and frees no other entry's outpoint |
| MempoolState.RemoveUndoesInsert | src/mempool/mempool.cpp:258-298 | removing what was just admitted restores the pool, byte counter included |
| MempoolState.RoomForMeaning | src/mempool/mempool.cpp:452-463 | only a full orphan pool gives up an orphan, one no younger than any other |
| MempoolState.AddOrphanKeeps | src/mempool/mempool.cpp:452-470 | a new orphan keeps the agreement and the orphan limit |
| MempoolState.AddKeeps | src/mempool/mempool.cpp:197-279 | the whole mutual recursion of admission and promotion keeps them, for every walking order |
| MempoolState.RoomShrinks | src/mempool/mempool.cpp:258-274 | each nested promotion follows a strict insertion: the nesting of calls is bounded, but a call may still wait for a stripe for ever |
| MempoolLocks.FinishedIsAdd | src/mempool/mempool.cpp:197-279 | a call that returns has done exactly what the cascade does without locks |
| MempoolLocks.LockedKeeps | src/mempool/mempool.cpp:197-279 | whether a call returns or waits for ever, the pool it leaves is sound |
| MempoolLocks.BlockedExact | src/mempool/mempool.cpp:189-216 | a call waits for ever exactly when, in the cascade without locks, some stack of nested calls names one stripe twice |
| MempoolLocks.DistinctStripesFinish | src/mempool/mempool.cpp:189-216 | if the transaction and the orphans lie on distinct stripes, none of them held, the call returns |
| MempoolLocks.WaitingOnHeldStripe | src/mempool/mempool.cpp:472-494 | one valid orphan waiting for an admitted transaction on a stripe its call holds keeps the call from ever returning |
| MempoolLocks.FlatExact | src/mempool/mempool.cpp:472-494 | when no orphan waits for an orphan, both directions can be read off the pool before the call |
| MempoolLocks.BlockedAfterAdmission | src/mempool/mempool.cpp:258-274 | a call that took its own stripe and waits for ever has already admitted its transaction |
| MempoolLocks.ReorgKeeps | src/mempool/mempool.cpp:313-321 | restoring transactions leaves a sound pool, also when one of the offers never returns |
| MempoolRuns.RunKeeps | src/mempool/mempool.cpp:162-320 | in every reachable pool, also after calls that never return, the spent outpoints are those of the entries, no outpoint or (address, nonce) pair is shared, the counter is the sum of sizes and all limits hold |
| MempoolRuns.StuckCallIsReachable | src/mempool/mempool.cpp:197-279 | two ordinary offers lead to a pool where a third, which would be admitted, never returns; an orphan carrying the same hash does it for every assignment of stripes |
| MempoolRuns.RemovalIsRebuild | src/mempool/mempool.cpp:284-311 | removals in any order and number leave the pool rebuilt from the other entries |
| MempoolRuns.AddAnswer | src/mempool/mempool.cpp:197-279 | the answer is the verdict of the checks; old entries stay, the admitted one stays with its fee and size, and nothing appears but it and old orphans |
| MempoolVerdict.AdmittedExactly | src/mempool/mempool.cpp:135-256 | an offer to a sound pool is admitted exactly when its form, cap, tip, inputs, nonce and size are right, each spelled out against the entries |
| MempoolVerdict.OrphanedExactly | src/mempool/mempool.cpp:197-231 | an offer is kept as an orphan exactly when it is otherwise fine and an entry to its address has its nonce or a later one; every other refusal leaves the pool as it was |
| MempoolState.FeeReaches | src/mempool/mempool.cpp:122-130 | the effective fee reaches a level exactly when the sender's cap does and the base fee with the tip does |
| MempoolVerdict.CapBelowMinimum | src/mempool/mempool.cpp:140 | a cap below the minimum is refused without a trace, whatever the base fee |
| MempoolVerdict.OnlyWaiterPromoted | src/mempool/mempool.cpp:472-494 | the only orphan waiting for an admitted transaction is admitted with it if its turn finds it admissible |
| MempoolVerdict.EstimateMeasuresWire | src/mempool/mempool.cpp:95-117 | the size estimate is the length of the wire encoding plus stated amounts for inputs, outputs and overhead |
| MempoolVerdict.StaleExactly | src/mempool/mempool.cpp:393-406 | with a clock past the maximum ages exactly what is no older than its maximum stays, unchanged |
| MempoolVerdict.LowFeeExactly | src/mempool/mempool.cpp:408-420 | exactly the entries whose cap and whose tip over the new base fee reach the minimum stay, unchanged |
| MempoolVerdict.RestoredForFee | src/mempool/mempool.cpp:313-321 | a restored transaction is refused for its fee exactly when its cap is below the minimum |
| MempoolRuns.AdmissionSettles | src/mempool/mempool.cpp:472-494 | after an admission no orphan waiting for it could still be admitted by its nonce |
| MempoolRuns.CutoffExact | src/mempool/mempool.cpp:394-399 | the cutoff evicts exactly what is older than the maximum age precisely when the clock is at least that old |
| MempoolRuns.EarlyClockEvictsAll | src/mempool/mempool.cpp:394-399 | before that every entry is stale |
| MempoolRuns.HigherBaseEvictsNothing | src/mempool/mempool.cpp:408-420 | evictLowFee removes nothing at a base fee no lower than the one of admission |
| MempoolRuns.OutputsBoundedIffInputs | src/mempool/mempool.cpp:142-158 | validation bounds a transaction's outputs exactly when it has inputs |
| MempoolRuns.LedgerInputLoop | src/blockchain.cpp:327-373 | on inputs the pool has validated, the ledger's loop passes exactly when none repeats or was marked, and computes the plain sum |
| MempoolRuns.PendingBlockAccepted | src/blockchain.cpp:292-383 | any list of distinct entries still covered and signed has no duplicate hash and passes the ledger's checks exactly when no transaction names an input twice |
| MempoolRuns.RepeatedInputAdmitted | src/mempool/mempool.cpp:142-158 | the pool admits a transaction that names an input twice |
| MempoolRuns.AppliedNamesInputsOnce | src/blockchain.cpp:392-399 | no block containing one is ever applied |
| Mempool.Mempool.constructor | src/mempool/mempool.cpp:24-28 | an empty, valid pool |
| Mempool.Mempool.ValidateTx | src/mempool/mempool.cpp:135-160 | the checks with their running overflow tests decide the validity predicate |
| Mempool.Mempool.FindDoubleSpend | src/mempool/mempool.cpp:162-169 | true exactly when an input is already spent |
| Mempool.Mempool.CheckNonceOrdering | src/mempool/mempool.cpp:171-184 | true exactly when no entry to the address has this nonce or a later one |
| Mempool.Mempool.AddTransaction | src/mempool/mempool.cpp:197-279 | the whole new state, the stripes held and the answer, None when the call waits for ever; validity is kept either way, and distinct stripes make it return |
| Mempool.Mempool.AddHoldingStripe | src/mempool/mempool.cpp:215-279 | the part under the stripe |
| Mempool.Mempool.MakeRoom | src/mempool/mempool.cpp:232-256 | whether the entry fits; the trimming in between changes nothing |
| Mempool.Mempool.PromoteOrphans | src/mempool/mempool.cpp:472-494 | takes out the waiting orphans and offers each again, in walking order, with the stripes of the calls in progress still held |
| Mempool.Mempool.TakeDependents | src/mempool/mempool.cpp:475-491 | the erasing walk collects exactly the waiting orphans |
| Mempool.Mempool.AddOrphanLocked | src/mempool/mempool.cpp:452-470 | the new orphan pool |
| Mempool.Mempool.FindOldest | src/mempool/mempool.cpp:454-458 | the first of the oldest |
| Mempool.Mempool.RemoveTransaction | src/mempool/mempool.cpp:284-298 | the whole new state; the outpoints of the other entries stay spent |
| Mempool.Mempool.RemoveConfirmed | src/mempool/mempool.cpp:306-311 | the pool rebuilt without the block's hashes |
| Mempool.Mempool.ReorgRestore | src/mempool/mempool.cpp:313-321 | each absent transaction offered in turn at the minimum fee, until one never returns |
| Mempool.Mempool.EvictStale | src/mempool/mempool.cpp:393-406 | exactly the entries before the first reading's cutoff and the orphans before the second's go |
| Mempool.Mempool.EvictStaleOrphans | src/mempool/mempool.cpp:496-507 | the orphans that remain |
| Mempool.Mempool.EvictLowFee | src/mempool/mempool.cpp:408-420 | exactly the entries below the minimum fee go |
| Mempool.Mempool.TrimToCapacity | src/mempool/mempool.cpp:422-447 | evicts the shortest front of the fee ranking that restores the limits, and nothing when they hold |
| Mempool.Mempool.GetSortedByFee | src/mempool/mempool.cpp:356-376 | distinct entries, dearest first, none left out paying more than one returned |
| Mempool.EstimateTxBytes | src/mempool/mempool.cpp:95-117 | the size estimate |
| Mempool.ComputeFee | src/mempool/mempool.cpp:122-130 | the saturating sum capped by the maximum fee |
| FeeRanking.AllGoneFits | src/mempool/mempool.cpp:436-446 | the eviction loop cannot end above the limits |
| FeeRanking.LexFirstDifference | src/mempool/mempool.cpp:434 | hashes are ordered by the first byte that differs, a proper prefix first |
| RateLimiter.PowerOfTwoTest | src/rate_limiter.cpp:15-19 | n & (n - 1) is zero exactly for powers of two |
| RateLimiter.MaskIsRemainder | src/rate_limiter.cpp:62-66 | the mask is the remainder, so every key has a shard |
| RateLimiter.TokenCost | src/rate_limiter.cpp:33-34 | a token costs nothing exactly above 10^9 requests per second |
| RateLimiter.SameAnswers | src/rate_limiter.cpp:62-121 | with a long enough timeout the sharded limiter with janitor passes answers as one map that never evicts, from any agreeing state |
| RateLimiter.RateBound | src/rate_limiter.cpp:88-121 | in any window of any run a key is permitted at most burst + T / nsPerToken requests |
| RateLimiter.SpacedCallerNeverDenied | src/rate_limiter.cpp:88-121 | a caller spaced by nsPerToken is never denied, whatever the timeout |
| RateLimiter.IdleTimeoutExact | src/rate_limiter.cpp:181-198 | the janitor is invisible on every run, and the bound holds on every window, exactly when the timeout covers the refill time |
| RateLimiter.Derived | src/rate_limiter.cpp:11-36 | the constructor's corrections give at least one shard, a power of two, and a positive burst |
| RateLimiter.DerivedMeaning | src/rate_limiter.cpp:11-36 | a burst above the rate is kept and a lower one raised to it; a shard count that is no power of two becomes 16; nsPerToken is 10^9 by the rate, rounded down |
| RateLimiter.AllowMeaning | src/rate_limiter.cpp:88-121 | a request passes exactly when what was left and what was earned since, capped, pays for a token, which is then taken |
| RateLimiter.ZeroReadingForgets | src/rate_limiter.cpp:98-104 | after a clock reading of zero the next request finds the key new |
| RateLimiter.FreshBurst | src/rate_limiter.cpp:88-121 | a new key's first burst passes whole |
| RateLimiter.EmptyKeyDenied | src/rate_limiter.cpp:88-121 | in every run the empty key is never permitted |
| RateLimiter.BackwardClockEarnsTwice | src/rate_limiter.cpp:100-121 | after a reading of an earlier time a request denied at a moment is permitted at that moment |
| RateLimiter.Limiter.constructor | src/rate_limiter.cpp:11-36 | derived constants and empty shards |
| RateLimiter.Limiter.Shard | src/rate_limiter.cpp:62-66 | a key's shard exists |
| RateLimiter.Limiter.Allow | src/rate_limiter.cpp:88-121 | one request's new shards and answer |
| RateLimiter.Limiter.Evict | src/rate_limiter.cpp:127-133 | the key leaves its own shard only |
| RateLimiter.Limiter.Clear | src/rate_limiter.cpp:139-145 | every shard is empty |
| RateLimiter.Limiter.JanitorPass | src/rate_limiter.cpp:181-198 | every shard keeps exactly its buckets seen since the cutoff |
| RateLimiter.Limiter.SweepShard | src/rate_limiter.cpp:188-197 | the erasing loop on one shard |
| Merkle.ProofComplete | src/merkle.cpp:12-92 | every proof getProof gives is accepted against the computed root |
| Merkle.ProofUnique | include/merkle.h:30-32 | two accepted proofs of equal length for one root and index are one proof of one leaf, if no pair hashed collides |
| Merkle.AcceptedIsGenuine | include/merkle.h:30-32 | a full-length proof is accepted for a position exactly when it is the genuine proof of the genuine leaf, if no pair hashed collides |
| Merkle.RootInjective | src/merkle.cpp:57-92 | among lists of one length the root determines the leaves, if no pair hashed collides |
| Merkle.RootOfPadded | src/merkle.cpp:57-92 | duplicating odd nodes level by level is folding the padded list |
| Merkle.EqualHeightCollision | src/merkle.cpp:57-92 | lists of equal height share a root exactly when they pad to the same list, if no pair hashed collides |
| Merkle.RootCollision | src/merkle.cpp:57-92 | any two lists share a root exactly when the lower one and the level of its height in the other's tree pad to the same list, if no pair hashed collides |
| Merkle.NodePassesForLeaf | src/merkle.cpp:57-92 | the one-leaf list of a pair's hash shares the root of the pair |
| Merkle.RepeatedLastLeaf | src/merkle.cpp:57-92 | repeating the last leaf of an odd list keeps the root, whatever the hash |
| Merkle.GetProof | src/merkle.cpp:12-51 | the loop computes the proof, or refuses an index out of range |
| Merkle.FoldLayer | src/merkle.cpp:79-87 | the serial fold of one level |
| Merkle.FoldLayerParallel | src/merkle.cpp:62-76 | the pool tasks in any order give the same level |
| Merkle.ComputeIterative | src/merkle.cpp:57-92 | the root, on either path and for every schedule |
| Base58.MulAddValue | src/bip39.cpp:221-232 | one carry pass multiplies the value by 256 and adds the byte |
| Base58.DigitsValue | src/bip39.cpp:220-232 | the digits denote the bytes read, without a leading zero digit unless the value is zero |
| Base58.AddressInjective | src/bip39.cpp:202-240 | the string determines the payload, for payloads of any lengths |
| Base58Decoding.AddressReadsBack | src/bip39.cpp:199-240 | a standard Base58Check decoder gives the payload back exactly unless it has only zero bytes and its checksum begins with one |
| Base58Decoding.AlphabetReadsBack | src/bip39.cpp:199-200 | the alphabet is the digits, capitals and small letters without 0, I, O and l, in this order |
| Base58.AddByte | src/bip39.cpp:222-231 | the in-place carry loop, its carry between digits at most 255 |
| Base58.Base58Check | src/bip39.cpp:202-240 | the address, or the refusal of an empty payload |
| Mnemonic.GeneratedIsVerified | src/bip39.cpp:406-437 | with 2048 distinct words every generated mnemonic passes the check, for every entropy and hash and all five lengths |
| Mnemonic.OtherListsFail | src/bip39.cpp:406-437 | with any other list there are an entropy and a hash for which the generator throws |
| Mnemonic.VerifiedIsGenerated | src/bip39.cpp:246-293 | with at most 2048 words every accepted mnemonic is generated by some entropy |
| Mnemonic.WordsDenoteEntropy | src/bip39.cpp:406-437 | read in base 2048 the positions of the generated words are the entropy followed by the first bits of its hash, for every entropy and size |
| Mnemonic.TokensOfJoined | src/bip39.cpp:248-251 | splitting at white space undoes joining by blanks |
| Mnemonic.WhiteSpaceSeparates | src/bip39.cpp:248-251 | any of the six white-space characters ends a word, and is skipped before one |
| Mnemonic.WindowIsChunk | src/bip39.cpp:418-427 | shift and mask over three bytes read the eleven bits of the window |
| Mnemonic.PackIndex | src/bip39.cpp:271-276 | the inner loop sets the eleven bits of one index |
| Mnemonic.PackWords | src/bip39.cpp:263-277 | the packed bits of all indices, or the refusal of an unknown word |
| Mnemonic.ChecksumMatches | src/bip39.cpp:282-288 | true exactly when all checksum bits agree |
| Mnemonic.VerifyChecksum | src/bip39.cpp:246-293 | the whole check as the predicate the lemmas are about |
| Mnemonic.GenerateMnemonic | src/bip39.cpp:406-437 | the mnemonic of the entropy, or None where the source throws |

## Left out

- Rlp.DecodeBytes: inputs are shorter than 2^63 bytes, the most an object can span.
- Rlp.EncodeUInt256: a 256-bit integer is its 32 bytes; the uint256_t class is not part of this model.
- Crc32c.Compute: the SSE4.2 branch is compiler intrinsics; only the table path is modelled.
- MessageCodec.TxRoundTrip: inputs and outputs are not on the wire, so decoding gives none; the statement is about the fields that are encoded.
- MessageCodec.DecodeFrame: null pointers and allocation failures have no counterpart.
- ProofOfWork.Mine: metrics, elapsed time and the nonce file are left out; the start nonce, the abort flag and the progress callback are parameters.
- ParallelMining.RunKeepsInv: a relaxed load of the found flag may read an old value; the values stored by other relaxed accesses are read only after the threads are joined.
- Blockchain.Blockchain.AddBlock: UTXOSet::addUTXO and spendUTXO have no bodies in the repository; they add an absent key or refuse, and remove a present spendable key or refuse. Mining, the coinbase hash, the block database and three clock readings are parameters. Persistence, reloading the chain from disk and logging are left out.
- LedgerVerdict.AcceptedExactly: assumes that no input of the first transaction is an output of the same block; a coinbase has no inputs.
- LedgerVerdict.AcceptedEffect: assumes the same.
- LedgerProvenance.RunKeepsRooted: assumes that at height 2^64 - 1 nothing is held back from spending, so that a failed block's outputs can be taken back.
- SupplyBound.AddBlockKeepsBound: assumes that the outputs of each submitted transaction add up to less than 2^64, that a late reward fits under the supply, and that at height 2^64 - 1 nothing is held back from spending. LedgerRuns.OverflowMints and LedgerRuns.LateRewardExact show that the first two are needed.
- Blockchain.Blockchain.AddBalance: does not model an account store that refuses a write.
- Blockchain.Blockchain.DeductBalance: does not model an account store that refuses a write.
- Blockchain.Blockchain.CheckInputs: signature recovery is an arbitrary predicate of the transaction and the address.
- Mempool.Mempool.AddTransaction: each call is atomic with one clock reading, so the unlocked window around trimming and the checks repeated after it are left out; trimming changes nothing there. A call that waits for ever keeps its stripes, and later calls find them held; two calls of different threads waiting on each other's stripes are not modelled. The walking order of the orphan table is an arbitrary function of the pool, chosen anew for each call. Metrics, callbacks and the persistence queue are left out.
- MempoolLocks.FlatExact: stored transactions are estimated at no more than 2^64 - 1 - maxTotalBytes bytes, so that the early size check lets them through in every pool.
- Mempool.Mempool.GetSortedByFee: ties are broken by hash; the source leaves them open.
- RateLimiter.RateBound: times are positive and non-decreasing, and no explicit evict or clear occurs in the run. Nanoseconds do not overflow 64 bits.
- RateLimiter.Limiter.Allow: a call and a janitor pass are atomic; the source locks one shard at a time.
- Merkle.ComputeIterative: an empty leaf list is undefined in the source and excluded. verifyProof has no body in the repository; it is the fold its signature implies.
- Mnemonic.GenerateMnemonic: word lists whose words are empty or contain white space are excluded; secure wiping is left out.
- Keccak, SHA-256, RIPEMD, secp256k1 and PBKDF2 are uninterpreted functions.
- Networking, peer management, HTTP and RPC servers, storage engines, the EVM host, consensus and sync: sockets, threads, I/O and external calls.
- adjustDifficulty, validateChain and fork resolution: simple bodies that would add easy members only.
