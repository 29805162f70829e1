/**
  The node's own data, as the indexer sees it: an append-only sequence of executed
  blocks with their receipts. Hashes, addresses and 32-byte words are plain numbers,
  so two of them are equal exactly when the bytes are.
 */
module Chain {
  import opened Wrappers

  const TWO_POW_32: nat := 0x1_0000_0000
  const TWO_POW_64: nat := 0x1_0000_0000_0000_0000
  const TWO_POW_160: nat := 0x1_00000000_00000000_00000000_00000000_00000000

  type Byte = b: int | 0 <= b < 256 witness 0

  datatype Address = Address(id: nat)

  datatype Digest = Digest(id: nat)

  datatype Log = Log(address: Address, topics: seq<nat>, data: seq<Byte>)

  datatype Receipt = Receipt(success: bool, cumulativeGasUsed: nat, logs: seq<Log>)

  /** `created` is the address `sender.create(nonce)` would have; only a creation (`to` absent) uses it. */
  datatype Transaction = Transaction(sender: Address, to: Option<Address>, created: Address, ty: Byte)

  type Nonce = s: seq<Byte> | |s| == 8 witness [0, 0, 0, 0, 0, 0, 0, 0]

  datatype Header = Header(
    number: nat,
    parentBeaconBlockRoot: Option<Digest>,
    nonce: Nonce,
    difficulty: nat,
    ommersHash: Digest,
    mixHash: Digest,
    extraData: seq<Byte>,
    baseFeePerGas: Option<nat>,
    timestamp: nat)

  datatype Block = Block(header: Header, transactions: seq<Transaction>, receipts: seq<Receipt>)

  /** Heights fit SQLite's signed 64-bit integers. */
  const HEIGHT_LIMIT: nat := 0x8000_0000_0000_0000

  /** Dense heights: the block at position `i` carries number `i`; genesis exists. */
  ghost predicate ValidChain(chain: seq<Block>) {
    && 1 <= |chain| <= HEIGHT_LIMIT
    && forall i :: 0 <= i < |chain| ==> chain[i].header.number == i
  }

  /** The address a transaction is filed under besides its sender. */
  function Recipient(tx: Transaction): Address {
    tx.to.UnwrapOr(tx.created)
  }

  /** Logs of transaction `t`; a missing receipt contributes none. */
  function LogsOf(block: Block, t: nat): seq<Log> {
    if t < |block.receipts| then block.receipts[t].logs else []
  }
}
