# simple-blockchain ledger core, in Dafny

This project models the ledger of `index.ts`. A `Transaction` moves an amount from a payer key to a payee key. A `Block` binds one transaction to the hash of its predecessor, a creation time and a random nonce. The `Chain` object holds the blocks in an array. It is seeded with a genesis block. `lastBlock` exposes the tail. `addBlock` verifies a signature over the transaction's text. When the signature verifies, it builds a block linked to the tail, runs the proof-of-work search `mine` on the block's nonce, and pushes the block.

Modules:

- `JsText` (jstext.dfy): the JavaScript built-ins the mining loop relies on. `NumberToString` is `Number.prototype.toString()` on an integer, with its inverse `ParseNumber`. `Substr` is `String.prototype.substr`.
- `Records` (records.dfy): `Transaction`, `Block` and `Nonce` (0..999999999, the range of `Math.round(Math.random() * 999999999)`). `Crypto` bundles the platform functions the ledger calls: JSON serialisation of each record, hex SHA-256 and MD5 digests, and signature verification. They are function-valued fields, so nothing is assumed about them beyond the requires of `Mine`, `AddBlock` and `TamperEvident`, listed under "## Left out". `TransactionToString` is `Transaction.toString`. `Hash` is the `Block.hash` getter. `Genesis` is the first block.
- `Ledger` (ledger.dfy): the chain predicates (`Linked`, `WellFormed`), the proof-of-work test (`Solves`, `LeastSolution`), their lemmas, and the `Chain` class. `Chain` has a `const crypto` and a `chain: seq<Block>` field, which `AddBlock` reassigns. `Valid()` is the class invariant: the chain is non-empty, starts with the genesis block, and every later block's `prevHash` is the hash of the block before it.

`Math.random()` (the nonce) and `Date.now()` (`createdAt`) are parameters of the constructor and of `AddBlock`.

The result of `this.mine(newBlock.nonce)` is discarded (index.ts:84), and the block pushed at index.ts:85 is exactly the one built at index.ts:82, so `Block` has no solution field. In the model, blocks and transactions are immutable values and `chain` is changed only by `AddBlock`. That is why, in the model, the hash of an earlier block never changes and the link invariant holds.

## Model

| member | source | states |
|---|---|---|
| `JsText.NatToDecimal` | index.ts:54 | the decimal text of a non-negative integer is non-empty, all digits, and has no leading zero unless the number is 0 |
| `JsText.NumberToString` | index.ts:54 | `(nonce + solution).toString()` is a numeral: a minus sign exactly for negative numbers, then digits |
| `JsText.DecimalRoundTrip` | index.ts:54 | reading back the decimal digits of `n` yields `n` |
| `JsText.NumberRoundTrip` | index.ts:54 | `ParseNumber(NumberToString(n)) == n` for every integer |
| `JsText.NumberToStringInjective` | index.ts:52-63 | distinct candidates give distinct strings, so each mining attempt digests a different input |
| `JsText.Substr` | index.ts:58 | `substr(start, length)` returns the characters of `s` from `start` on, at most `length` of them, and none when `start` is past the end |
| `JsText.SubstrPrefix` | index.ts:58 | comparing the first characters of `s` against `p` succeeds exactly when `p` is a prefix of `s`; a digest shorter than 4 characters never passes |
| `Ledger.Solves` | index.ts:53-58 | an attempt passes exactly when the first 4 characters of the hex MD5 of the decimal text of `nonce + solution` are "0000", that is, when the digest starts with "0000" |
| `Ledger.LeastSolutionUnique` | index.ts:49-63 | a nonce has at most one least solution, so the search's answer is reproducible |
| `Ledger.Chain.Mine` | index.ts:48-65 | the returned solution is at least 1, passes the "0000" test, and no smaller positive value passes it |
| `Ledger.Chain.constructor` | index.ts:38-40 | the new ledger holds exactly one block, with no `prevHash` and the transaction (100, "genesis", "satoshi"), and satisfies the class invariant |
| `Ledger.Chain.LastBlock` | index.ts:43-45 | on every valid ledger (never empty) the tail is the last element of `chain`, and it lacks a `prevHash` exactly when only the genesis block is present |
| `Ledger.Chain.AddBlock` | index.ts:68-87 | the invariant is preserved. The signature is checked over `TransactionToString(transaction)` under `senderPublicKey`. If it does not verify, `chain` is unchanged. If it verifies, exactly one block is appended, earlier blocks stay unchanged and in order, and their hashes are unchanged. The tail then becomes `Block(hash of the old tail, transaction, createdAt, nonce)` |
| `Ledger.NullOnlyAtGenesis` | index.ts:38-40 | in a valid chain, a block lacks a `prevHash` exactly when it is at index 0 |
| `Ledger.LinkedExtend` | index.ts:82-85 | pushing a block whose `prevHash` is the tail's hash keeps the chain valid, and the block becomes the tail |
| `Ledger.PrefixWellFormed` | index.ts:85 | every non-empty prefix of a valid chain is a valid chain, because blocks are only pushed at the end |
| `Ledger.TamperEvident` | index.ts:25-30 | if the block hash is collision-free, two valid chains with the same tail block are equal, so no earlier block can be changed without changing the tail |

## Left out

- `Wallet` (index.ts:91-115): RSA key-pair generation and signing are calls into the platform's crypto library. `sendMoney` only builds `Transaction(amount, publicKey, payeePublicKey)` and passes it to `addBlock`.
- The JSON serialisation, SHA-256, MD5 and signature verification are not defined. They are uninterpreted fields of `Crypto`. Hex encoding and digest lengths are not modelled.
- Records.TransactionToString: this is the uninterpreted JSON encoding of `Transaction.toString` (index.ts:10-12) and has no contract of its own. What the ledger relies on is stated in `Ledger.Chain.AddBlock`, whose branches are decided by verifying this text.
- Records.Hash: this is the uninterpreted SHA-256 of the block's JSON (index.ts:25-30) and has no contract of its own. Its properties as used are stated by `Ledger.Chain.AddBlock` (earlier blocks' hashes do not change), `Ledger.LinkedExtend` and `Ledger.TamperEvident`. That it never depends on a solution follows from `Block` having no solution field, not from a contract.
- Ledger.Chain.Mine: the source loops forever when no solution exists, and its termination is only probabilistic. The model therefore requires that some solution at least 1 exists, and its results hold under that assumption.
- Ledger.Chain.AddBlock: because it calls `Mine`, it requires that a solution exists for the new block's nonce whenever the signature verifies.
- Ledger.TamperEvident: assumes the block hash is collision-free. SHA-256 is only collision-resistant, so this is an idealisation.
- JavaScript `number` semantics: `amount`, `createdAt`, nonces and solutions are unbounded integers. The loss of precision above 2^53 and the exponent notation of `toString` for very large values are not modelled.
- Aliasing: in the source, `Transaction` and `Block` are mutable objects with public fields (index.ts:5-9, 19-23), `addBlock` stores the caller's own `transaction` object (index.ts:82), and the `chain` array and the block `lastBlock` returns are live references (index.ts:36, 43-45). Outside code can therefore mutate a stored block or the array and break the link invariant. The model assumes nothing outside `Chain` mutates stored blocks, their transactions or the `chain` array.
- Ledger.Chain.AddBlock: `verifier.verify` (index.ts:78) throws when `senderPublicKey` cannot be parsed as a public key, and the exception propagates out of `addBlock`. `Crypto.verify` is a total boolean, so this thrown error is modelled as a failed verification; in both cases the chain is left unchanged.
- The static singleton `Chain.instance` (index.ts:34) is replaced by an explicit `Chain` object. The demo script and `console.log` output (index.ts:50, 59, 117-126) are I/O and are not modelled.
