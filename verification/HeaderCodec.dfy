/**
  The consensus provenance packed into an execution header: `nonce` holds
  `(epoch << 32) | round` big-endian and `difficulty` holds
  `(batch_index << 16) | worker_id`.
 */
module HeaderCodec {
  import opened Wrappers
  import opened Chain

  datatype ConsensusFields = ConsensusFields(
    digest: Digest,
    epoch: nat,
    round: nat,
    batchIndex: nat,
    workerId: nat,
    batchDigest: Digest,
    prevRandao: Digest,
    closesEpoch: bool)

  /** The number a big-endian byte string spells. */
  function FromBigEndian(bytes: seq<Byte>): nat {
    if bytes == [] then 0
    else 256 * FromBigEndian(bytes[..|bytes| - 1]) + bytes[|bytes| - 1]
  }

  /** The `width` low bytes of `n`, most significant first. */
  function ToBigEndian(n: nat, width: nat): (bytes: seq<Byte>)
    ensures |bytes| == width
  {
    if width == 0 then [] else ToBigEndian(n / 256, width - 1) + [n % 256]
  }

  /**
    `decode_consensus_fields`: genesis is excluded by number, a missing root by the
    same rule, and a difficulty beyond u64 makes the whole header untrusted.
   */
  function DecodeConsensusFields(header: Header): Option<ConsensusFields> {
    if header.number == 0 then None
    else if header.parentBeaconBlockRoot.None? then None
    else if header.difficulty >= TWO_POW_64 then None
    else
      var nonce := FromBigEndian(header.nonce);
      Some(ConsensusFields(
             header.parentBeaconBlockRoot.value,
             nonce / TWO_POW_32,
             nonce % TWO_POW_32,
             header.difficulty / 0x1_0000,
             header.difficulty % 0x1_0000,
             header.ommersHash,
             header.mixHash,
             header.extraData != []))
  }

  /** What the node writes into `nonce`. */
  function PackNonce(epoch: nat, round: nat): Nonce {
    ToBigEndian(epoch * TWO_POW_32 + round, 8)
  }

  /** What the node writes into `difficulty`. */
  function PackDifficulty(batchIndex: nat, workerId: nat): nat {
    batchIndex * 0x1_0000 + workerId
  }

  function Pow256(width: nat): nat {
    if width == 0 then 1 else 256 * Pow256(width - 1)
  }

  lemma {:induction false} BigEndianDecodes(n: nat, width: nat)
    requires n < Pow256(width)
    ensures FromBigEndian(ToBigEndian(n, width)) == n
  {
    if width != 0 {
      BigEndianDecodes(n / 256, width - 1);
      var bytes := ToBigEndian(n, width);
      assert bytes[..width - 1] == ToBigEndian(n / 256, width - 1);
    }
  }

  lemma {:induction false} BigEndianEncodes(bytes: seq<Byte>)
    ensures FromBigEndian(bytes) < Pow256(|bytes|)
    ensures ToBigEndian(FromBigEndian(bytes), |bytes|) == bytes
  {
    if bytes != [] {
      var high := bytes[..|bytes| - 1];
      BigEndianEncodes(high);
      assert FromBigEndian(bytes) / 256 == FromBigEndian(high);
      assert bytes == high + [bytes[|bytes| - 1]];
    }
  }

  lemma NonceWidth()
    ensures Pow256(8) == TWO_POW_64
  {
    assert Pow256(4) == TWO_POW_32;
    assert Pow256(8) == 256 * 256 * 256 * 256 * Pow256(4);
  }

  /** Decoding inverts packing over the full field widths. */
  lemma DecodeInvertsPacking(header: Header, epoch: nat, round: nat, batchIndex: nat, workerId: nat)
    requires header.number != 0 && header.parentBeaconBlockRoot.Some?
    requires epoch < TWO_POW_32 && round < TWO_POW_32
    requires batchIndex < 0x1_0000_0000_0000 && workerId < 0x1_0000
    requires header.nonce == PackNonce(epoch, round)
    requires header.difficulty == PackDifficulty(batchIndex, workerId)
    ensures DecodeConsensusFields(header) == Some(ConsensusFields(
      header.parentBeaconBlockRoot.value, epoch, round, batchIndex, workerId,
      header.ommersHash, header.mixHash, header.extraData != []))
  {
    NonceWidth();
    var nonce := epoch * TWO_POW_32 + round;
    assert nonce < TWO_POW_64;
    BigEndianDecodes(nonce, 8);
    DivisionUnique(nonce, TWO_POW_32, epoch, round);
    DivisionUnique(header.difficulty, 0x1_0000, batchIndex, workerId);
  }

  /**
    A header decodes exactly when it is not genesis, names an output and carries the packing of
    some batch: every difficulty that is none is rejected.
   */
  lemma DecodesIffPacked(header: Header)
    ensures DecodeConsensusFields(header).Some? <==>
              && header.number != 0 && header.parentBeaconBlockRoot.Some?
              && exists batchIndex, workerId :: IsPacking(header.difficulty, batchIndex, workerId)
  {
    if DecodeConsensusFields(header).Some? {
      RepackingRestoresHeader(header);
      var f := DecodeConsensusFields(header).value;
      assert IsPacking(header.difficulty, f.batchIndex, f.workerId);
    }
  }

  predicate IsPacking(difficulty: nat, batchIndex: nat, workerId: nat) {
    batchIndex < 0x1_0000_0000_0000 && workerId < 0x1_0000 && difficulty == PackDifficulty(batchIndex, workerId)
  }

  /**
    Re-packing what was decoded gives back the header's own bytes, so two headers with
    equal fields carry equal `nonce` and `difficulty`: distinct packings never collide.
   */
  lemma RepackingRestoresHeader(header: Header)
    requires DecodeConsensusFields(header).Some?
    ensures var f := DecodeConsensusFields(header).value;
            && f.epoch < TWO_POW_32 && f.round < TWO_POW_32
            && f.batchIndex < 0x1_0000_0000_0000 && f.workerId < 0x1_0000
            && PackNonce(f.epoch, f.round) == header.nonce
            && PackDifficulty(f.batchIndex, f.workerId) == header.difficulty
  {
    NonceWidth();
    BigEndianEncodes(header.nonce);
  }
}
