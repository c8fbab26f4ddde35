# Confidential vault client helpers: calldata serialiser and shadow-balance bookkeeping

This project models the self-contained logic of `scripts/utils.ts`. It has
two parts.

1. **The Groth16 proof-calldata serialiser.** `toHex32` renders a number as
   lowercase base 16 and left-pads it with `'0'` to 64 digits.
   `proofToSolidityInput` turns a snarkjs proof `{pi_a, pi_b, pi_c}` into
   `"0x"` followed by eight such words. It swaps the two entries of each
   `pi_b` pair, which gives the imaginary-part-first G2 encoding of the
   alt_bn128 pairing precompile (EIP-197, "Encoding").
2. **The client's shadow ledger.** This is the encrypted plaintext balance
   each account keeps on chain for its own use. The model covers what
   `getPrivateBalance`, `depositAmount`, `withdrawAmount`, `sendAmount`
   and `retreiveAmount` compute and what they submit to the vault contract.

Modules:

- `Wrappers`: `Option` (JavaScript's `undefined`) and `Result` (a helper
  that throws).
- `Hex`: the base-16 numeral, the padded word, and `FromHex`, a reader
  that takes a word back to its number.
  - `ToHex32` is a method with the source's `while` loop.
  - It is proved equal to the specification function `Hex32`.
  - The lemmas about `Hex32` give its length, its exact 64-digit width
    below 2^256, and the round trip through `FromHex`.
- `Calldata`: the serialiser, a reference definition of the EIP-197 word
  order, and a decoder (`DecodeCalldata`, `DecodeProof`). The decoder
  splits the string after `"0x"` into 64-digit chunks. The round trip through
  it is proved.
- `Crypto`: a symbolic model of the public-key encryption.
  - A ciphertext is a term naming the public key it was made for.
  - Only the private key of that public key opens it.
  - The one fact the helpers rely on, `Dec(k, Enc(k, x)) == x`, holds by
    construction. It is not an axiom.
- `ShadowLedger`: the five helpers as pure functions.
  - Chain reads are parameters: the stored balance entry from
    `privateBalanceOf`, the nonce from `getNonce`, and the
    `private_receiver_amount` of `getSendRequest`.
  - The two Groth16 provers are function parameters.
  - Each helper returns the transaction it would submit, or the error it
    would throw.
  - Cross-call lemmas relate what one helper submits to what the next
    `getPrivateBalance` reads: overdraft, a send followed by the
    counterparty's retrieve, and the 100 / 30 two-party scenario. They
    assume the contract stores each submitted ciphertext as it was
    submitted.

What the code does, as modelled:

- `scripts/utils.ts` itself never checks `amount <= before`. Given a proof
  from the sender prover, `withdrawAmount` and `sendAmount` submit
  `before - amount` whatever its sign. The sender circuit is expected to
  enforce non-negativity by rejecting such a witness. The circuit is not
  part of this model: a prover is a function that may fail (`None`) on
  any witness, and that failure is threaded through every helper as
  `ProveFailed`.
- `sendAmount` sets the request's `recipient` to the sender's own address.
  The counterparty is identified only by the public key the receiver
  amount is encrypted for. An older, commented-out test calls the helper
  with a separate recipient address. The model states the current
  behaviour.
- `retreiveAmount` takes a `counterPublicKey` argument and never uses it.
  Its `token` argument only selects which stored balance is read: the model
  takes that stored entry as its parameter.
- The request id `withdrawAmount` and `sendAmount` return is public signal
  4 of the sender proof. It is `undefined`, not an error, when the proof has
  fewer than five signals.

## Model

| member | source | states |
|---|---|---|
| `Hex.ToHex` | scripts/utils.ts:70 | `n.toString(16)` is a non-empty string of lowercase hex digits with no leading zero, except that zero is `"0"` |
| `Hex.ToHex32` | scripts/utils.ts:69-73 | the loop that prepends `'0'` while the string is shorter than 64 returns exactly the numeral left-padded to 64 (`Hex32`) |
| `Hex.FromHex` | scripts/utils.ts:69-73 | the reader of a numeral succeeds exactly on strings made only of lowercase hex digits |
| `Hex.Hex32Length` | scripts/utils.ts:69-73 | `|toHex32(n)|` is `max(64, |n.toString(16)|)` |
| `Hex.Hex32Shape` | scripts/utils.ts:71 | `toHex32(n)` is the unpadded numeral preceded by zero or more `'0'`s, so nothing is truncated, and it is all hex digits |
| `Hex.ToHexLength` | scripts/utils.ts:70 | the numeral has at most k digits if and only if n < 16^k |
| `Hex.Pow16IsPow2` | scripts/utils.ts:71 | 16^k = 2^(4k), so the 64-digit bound is 2^256 |
| `Hex.Hex32Width` | scripts/utils.ts:69-73 | `toHex32(n)` is exactly 64 characters if and only if n < 2^256 |
| `Hex.FromHexToHex` | scripts/utils.ts:70 | reading the unpadded numeral back yields n |
| `Hex.FromHexLeadingZeros` | scripts/utils.ts:71 | prepended `'0'`s do not change the value read |
| `Hex.Hex32RoundTrip` | scripts/utils.ts:69-73 | reading `toHex32(n)` back as base 16 yields n |
| `Hex.Hex32Injective` | scripts/utils.ts:69-73 | distinct numbers give distinct words |
| `Calldata.ProofToSolidityInput` | scripts/utils.ts:58-67 | fails exactly when one of the eight coordinates read is absent (a property access on `undefined` for a missing `pi_b` pair, `BigInt(undefined)` for a missing entry); otherwise the output starts with `"0x"` |
| `Calldata.WordsAreVerifierOrder` | scripts/utils.ts:59-64 | the literal's order `pi_a[0], pi_a[1], pi_b[0][1], pi_b[0][0], pi_b[1][1], pi_b[1][0], pi_c[0], pi_c[1]` is the EIP-197 order of the proof's points: G1 as (x, y), G2 with each F_q2 coordinate imaginary part first |
| `Calldata.SplitWords` | scripts/utils.ts:66 | a successful split into words consumes exactly 64 characters per word |
| `Calldata.JoinHexLength` | scripts/utils.ts:66 | the joined words are at least 64 characters each, and exactly 64 each if and only if every number is below 2^256 |
| `Calldata.JoinHexChunk` | scripts/utils.ts:66 | when every number fits, the i-th 64-character chunk of the join is `toHex32` of the i-th number |
| `Calldata.SplitJoin` | scripts/utils.ts:66 | when every number fits, splitting the join into 64-digit chunks and reading each recovers the numbers in order |
| `Calldata.EncodedLength` | scripts/utils.ts:58-67 | the output is at least 2 + 8·64 = 514 characters, and exactly 514 if and only if every coordinate is below 2^256 |
| `Calldata.EncodedChunks` | scripts/utils.ts:58-67 | when every coordinate fits, characters 2+64i to 2+64(i+1) are `toHex32` of the i-th number of the literal |
| `Calldata.DecodeEncodedWords` | scripts/utils.ts:58-67 | decoding the output after `"0x"` yields the eight numbers in the literal's order |
| `Calldata.DecodeEncodedProof` | scripts/utils.ts:58-67 | decoding and undoing the two `pi_b` swaps recovers the two affine coordinates of `pi_a`, `pi_b[0]`, `pi_b[1]` and `pi_c` |
| `Calldata.EncodingInjective` | scripts/utils.ts:58-67 | two proofs with the same calldata denote the same G1/G2 points |
| `Crypto.DecryptEncrypt` | scripts/utils.ts:75-103 | decrypting with k what was encrypted for k's public key yields the plaintext |
| `Crypto.DecryptOnlyByRecipient` | scripts/utils.ts:92-103 | a ciphertext opens under a private key if and only if it was made for that key's public key |
| `ShadowLedger.GenProof` | scripts/utils.ts:26-35 | fails with `ProveFailed` when witness calculation or proving throws, and with a serialisation error when the proof lacks a coordinate; otherwise returns the serialised proof and the prover's public signals unchanged |
| `ShadowLedger.GetPrivateBalance` | scripts/utils.ts:124-128 | an empty stored entry reads as 0; otherwise the balance is the decrypted entry, and a key that cannot decrypt it is an error |
| `ShadowLedger.DepositAmount` | scripts/utils.ts:130-140 | fails when the balance cannot be read; otherwise submits, from the account, `deposit(token, amount, …)` with a new entry that decrypts to before + amount and a receiver proof for (before, amount) |
| `ShadowLedger.WithdrawAmount` | scripts/utils.ts:142-156 | submits `withdraw(token, amount, …)` with a new entry that decrypts to before − amount, a sender proof whose witness holds the nonce and the balance read in the same call, and returns public signal 4 as the request id |
| `ShadowLedger.SendAmount` | scripts/utils.ts:160-208 | submits one request with recipient the sender's own address, all deal, oracle and unlock fields zero, new balance before − amount, a sender-amount entry the sender can decrypt to amount, a receiver-amount entry encrypted for the counterparty's key; returns public signal 4 |
| `ShadowLedger.RetreiveAmount` | scripts/utils.ts:210-223 | fails when the balance or the request's receiver amount cannot be decrypted; otherwise submits `acceptRequest(idHash, …)` with a new entry that decrypts to before + amount and a receiver proof for (before, amount) |
| `ShadowLedger.BalanceAfterDeposit` | scripts/utils.ts:134-137 | the entry a deposit submits reads back as before + amount |
| `ShadowLedger.BalanceAfterWithdraw` | scripts/utils.ts:147-150 | the entry a withdrawal submits reads back as before − amount |
| `ShadowLedger.WithdrawMayOverdraw` | scripts/utils.ts:147 | the helper never checks `amount <= before`: whenever the sender prover returns a proof for an overdrawing witness, a negative new balance is submitted |
| `ShadowLedger.RetrieveNeedsCounterpartyKey` | scripts/utils.ts:170-216 | an account whose key is not the one the sender encrypted the amount for cannot retrieve the request |
| `ShadowLedger.SendThenRetrieve` | scripts/utils.ts:165-219 | after a send to B and B's retrieve, B reads before + amount, A reads before − amount, and the two balances keep their sum |
| `ShadowLedger.SendThirtyOfHundred` | scripts/utils.ts:160-223 | A with 100 sends 30 to B with nothing stored: A then reads 70 and B, after retrieving, reads 30 |

## Left out

- `genReceiverProof` and `genSenderProof`: witness calculation from WASM, the witness file write and `snarkjs.groth16.prove` (scripts/utils.ts:18-29, 38-49) are foreign code and I/O. Proving is the `Prover` function parameter. It returns `None` where either step throws, but which witnesses the circuits reject (an overdraft, say) is not modelled. Only the wrapping of its result is modelled.
- `encrypt` and `decrypt` are modelled symbolically (`Crypto`). The randomness of ECIES and its ciphertext format are not modelled: `Encrypt` is deterministic. The JSON round trip of a BigInt through the `toJSON` patch is taken as exact. A decrypted payload that is not numeric text is not modelled.
- `encryptSign`, `decryptSigned`, `encryptedBySecret`, `decryptBySecret` and `metaMaskEncrypt` are not modelled. They wrap signing and symmetric or x25519 encryption libraries, and none of the five helpers uses them.
- The `BigInt.prototype.toJSON` patch (scripts/utils.ts:9-11) is JSON plumbing.
- The vault, deal and oracle contracts (`deposit`, `withdraw`, `createRequest`, `acceptRequest`, `getNonce`, `getSendRequest`, `privateBalanceOf`) are not part of this model, so whether a submitted call is accepted or reverted is not modelled. Their reads are parameters, and their calls are returned as values. Results that the helpers pass through from the contract (the transaction responses of `depositAmount` and `retreiveAmount`) are not modelled.
- `Calldata.ProofToSolidityInput`: coordinates are natural numbers. Parsing snarkjs's decimal strings with `BigInt(p)` is not modelled. A negative BigInt, which would put a `'-'` inside the padding, is not modelled either.
- `Hex.FromHex` is the model's own decoder, the partner of `toHex32`, and is not in the source. It reads the empty string as 0.
- Asynchrony: the order of the awaited calls matters only through which values each call reads. Those values are parameters, so interleaving with other clients is not modelled.
- Deployment scripts, network configuration and the Hedera account script are not modelled: they are configuration and I/O. The tests are not modelled either: `test/Privacy.ts` is commented out, and `test/Privacy2.ts` has no assertions.
