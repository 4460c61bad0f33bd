/** The ledger: an append-only sequence of blocks, each linked to its
    predecessor by hash, extended only by a signature-checked, mined append. */
module Ledger {
  import opened JsText
  import opened Records

  function Last(blocks: seq<Block>): (b: Block)
    requires |blocks| > 0
  {
    blocks[|blocks| - 1]
  }

  /** Every block after the first records the hash of the block before it. */
  ghost predicate Linked(crypto: Crypto, blocks: seq<Block>) {
    forall i :: 0 < i < |blocks| ==> blocks[i].prevHash == Some(Hash(crypto, blocks[i - 1]))
  }

  /** A chain as the ledger keeps it: the genesis block first, then linked blocks. */
  ghost predicate WellFormed(crypto: Crypto, blocks: seq<Block>) {
    |blocks| > 0 &&
    blocks[0].prevHash == None &&
    blocks[0].transaction == GenesisTransaction &&
    Linked(crypto, blocks)
  }

  /** The idealised collision resistance of the block hash. */
  ghost predicate CollisionFree(crypto: Crypto) {
    forall a: Block, b: Block :: Hash(crypto, a) == Hash(crypto, b) ==> a == b
  }

  /** Only the genesis block lacks a predecessor hash. */
  lemma NullOnlyAtGenesis(crypto: Crypto, blocks: seq<Block>, i: int)
    requires WellFormed(crypto, blocks)
    requires 0 <= i < |blocks|
    ensures blocks[i].prevHash == None <==> i == 0
  {
    if i > 0 {
      assert blocks[i].prevHash == Some(Hash(crypto, blocks[i - 1]));
    }
  }

  /** Appending a block that names the hash of the current tail keeps the
      chain well formed, and the new block becomes the tail. */
  lemma LinkedExtend(crypto: Crypto, blocks: seq<Block>, b: Block)
    requires WellFormed(crypto, blocks)
    requires b.prevHash == Some(Hash(crypto, Last(blocks)))
    ensures WellFormed(crypto, blocks + [b])
    ensures Last(blocks + [b]) == b
  {
  }

  /** Every non-empty prefix of a chain is a chain: the history up to any
      block is itself a valid ledger. */
  lemma PrefixWellFormed(crypto: Crypto, blocks: seq<Block>, n: int)
    requires WellFormed(crypto, blocks)
    requires 0 < n <= |blocks|
    ensures WellFormed(crypto, blocks[..n])
  {
  }

  /** Tamper evidence: under a collision-free hash, the tail block of a chain
      determines the whole chain, so no earlier block can be altered,
      removed or inserted without changing the tail. */
  lemma {:induction false} TamperEvident(crypto: Crypto, s: seq<Block>, t: seq<Block>)
    requires CollisionFree(crypto)
    requires WellFormed(crypto, s) && WellFormed(crypto, t)
    requires Last(s) == Last(t)
    ensures s == t
    decreases |s|
  {
    NullOnlyAtGenesis(crypto, s, |s| - 1);
    NullOnlyAtGenesis(crypto, t, |t| - 1);
    if |s| > 1 {
      assert |t| > 1;
      assert Hash(crypto, s[|s| - 2]) == Hash(crypto, t[|t| - 2]);
      PrefixWellFormed(crypto, s, |s| - 1);
      PrefixWellFormed(crypto, t, |t| - 1);
      TamperEvident(crypto, s[..|s| - 1], t[..|t| - 1]);
      assert s == s[..|s| - 1] + [Last(s)];
      assert t == t[..|t| - 1] + [Last(t)];
    }
  }

  /** The proof-of-work test: the first four characters of the hex MD5 of
      the decimal text of `nonce + solution` are "0000", that is, the digest
      starts with "0000". */
  predicate Solves(crypto: Crypto, nonce: int, solution: int)
    ensures Solves(crypto, nonce, solution) <==> "0000" <= crypto.md5Hex(NumberToString(nonce + solution))
  {
    Substr(crypto.md5Hex(NumberToString(nonce + solution)), 0, 4) == "0000"
  }

  /** `solution` is the first value from 1 upward that passes the test. */
  ghost predicate LeastSolution(crypto: Crypto, nonce: int, solution: int) {
    1 <= solution &&
    Solves(crypto, nonce, solution) &&
    forall t :: 1 <= t < solution ==> !Solves(crypto, nonce, t)
  }

  /** The search is reproducible: a nonce has at most one least solution. */
  lemma LeastSolutionUnique(crypto: Crypto, nonce: int, s1: int, s2: int)
    requires LeastSolution(crypto, nonce, s1) && LeastSolution(crypto, nonce, s2)
    ensures s1 == s2
  {
  }

  /** The ledger object. `chain` is only ever extended at its end. */
  class Chain {
    const crypto: Crypto
    var chain: seq<Block>

    ghost predicate Valid()
      reads this
    {
      WellFormed(crypto, chain)
    }

    /** Seeds the ledger with the genesis block; the clock reading and the
        random nonce of that block are parameters. */
    constructor (crypto: Crypto, createdAt: int, nonce: Nonce)
      ensures this.crypto == crypto
      ensures Valid()
      ensures chain == [Genesis(createdAt, nonce)]
      ensures chain[0].prevHash == None && chain[0].transaction == Transaction(100, "genesis", "satoshi")
    {
      this.crypto := crypto;
      chain := [Genesis(createdAt, nonce)];
    }

    /** The tail block, defined on every valid ledger since the chain is
        never empty; it is the genesis block exactly when nothing was
        appended yet. */
    function LastBlock(): (b: Block)
      reads this
      requires Valid()
      ensures b == Last(chain)
      ensures b.prevHash == None <==> |chain| == 1
    {
      NullOnlyAtGenesis(crypto, chain, |chain| - 1);
      Last(chain)
    }

    /** Brute-force search for the least solution from 1 upward. The search
        only ends if some solution exists, which the caller supplies. */
    method Mine(nonce: int) returns (solution: int)
      requires exists w :: 1 <= w && Solves(crypto, nonce, w)
      ensures LeastSolution(crypto, nonce, solution)
    {
      ghost var w :| 1 <= w && Solves(crypto, nonce, w);
      solution := 1;
      while true
        invariant 1 <= solution <= w
        invariant forall t :: 1 <= t < solution ==> !Solves(crypto, nonce, t)
        decreases w - solution
      {
        var attempt := crypto.md5Hex(NumberToString(nonce + solution));
        if Substr(attempt, 0, 4) == "0000" {
          return;
        }
        solution := solution + 1;
      }
    }

    /** Appends a block carrying `transaction` when `signature` verifies over
        the transaction's text under `senderPublicKey`; otherwise does
        nothing. The new block links to the current tail and is pushed as
        built: the mined solution is discarded. */
    method AddBlock(transaction: Transaction, senderPublicKey: string, signature: Signature,
                    createdAt: int, nonce: Nonce)
      requires Valid()
      requires crypto.verify(TransactionToString(crypto, transaction), senderPublicKey, signature) ==>
                 exists w :: 1 <= w && Solves(crypto, nonce, w)
      modifies this
      ensures Valid()
      ensures !crypto.verify(TransactionToString(crypto, transaction), senderPublicKey, signature) ==>
                chain == old(chain)
      ensures crypto.verify(TransactionToString(crypto, transaction), senderPublicKey, signature) ==>
                chain == old(chain) + [Block(Some(Hash(crypto, old(LastBlock()))), transaction, createdAt, nonce)]
      ensures crypto.verify(TransactionToString(crypto, transaction), senderPublicKey, signature) ==>
                |chain| == |old(chain)| + 1 && chain[..|old(chain)|] == old(chain) &&
                LastBlock().transaction == transaction &&
                LastBlock().prevHash == Some(Hash(crypto, old(LastBlock())))
      ensures forall i :: 0 <= i < |old(chain)| ==> Hash(crypto, chain[i]) == Hash(crypto, old(chain)[i])
    {
      var isValid := crypto.verify(TransactionToString(crypto, transaction), senderPublicKey, signature);
      if isValid {
        var newBlock := Block(Some(Hash(crypto, LastBlock())), transaction, createdAt, nonce);
        var _ := Mine(newBlock.nonce);
        LinkedExtend(crypto, chain, newBlock);
        chain := chain + [newBlock];
      }
    }
  }
}
