/** The records the ledger stores: a value transfer and the block that links
    it to its predecessor, together with the cryptographic collaborators the
    ledger calls and does not define. */
module Records {

  datatype Option<T> = None | Some(value: T)

  /** A transfer of `amount` from the `payer` key to the `payee` key. The
      amount is not validated in any way. */
  datatype Transaction = Transaction(amount: int, payer: string, payee: string)

  /** A block's nonce is `Math.round(Math.random() * 999999999)`. */
  const MaxNonce := 999999999
  type Nonce = n: int | 0 <= n <= MaxNonce

  /** A block: the hash of its predecessor (none for the genesis block), one
      transaction, the creation time in milliseconds and a random nonce.
      There is no solution field: the proof-of-work result is never stored. */
  datatype Block = Block(prevHash: Option<string>, transaction: Transaction, createdAt: int, nonce: Nonce)

  /** The signature bytes handed to the verifier. */
  type Signature = seq<bv8>

  /** The functions the ledger takes from its platform, left uninterpreted:
      JSON serialisation of each record, the hex SHA-256 and MD5 digests of a
      string, and signature verification of a message under a public key. */
  datatype Crypto = Crypto(
    transactionJson: Transaction -> string,
    blockJson: Block -> string,
    sha256Hex: string -> string,
    md5Hex: string -> string,
    verify: (string, string, Signature) -> bool)

  /** `Transaction.toString`: the text that is signed and verified. */
  function TransactionToString(crypto: Crypto, t: Transaction): (text: string) {
    crypto.transactionJson(t)
  }

  /** `Block.hash`: SHA-256 of the block's JSON. */
  function Hash(crypto: Crypto, b: Block): (h: string) {
    crypto.sha256Hex(crypto.blockJson(b))
  }

  const GenesisTransaction := Transaction(100, "genesis", "satoshi")

  function Genesis(createdAt: int, nonce: Nonce): (b: Block) {
    Block(None, GenesisTransaction, createdAt, nonce)
  }
}
