/** The block cipher as a pair of arbitrary functions on 16-byte blocks. Only
    their being mutually inverse is ever used. */
module BlockCiphers {
  import opened Bytes

  const BLOCK_SIZE: nat := 16

  type Block = s: bytes | |s| == 16 witness Repeat(0, 16)

  datatype BlockCipher = BlockCipher(enc: Block -> Block, dec: Block -> Block) {
    ghost predicate Permutation() {
      && (forall b: Block {:trigger dec(enc(b))} :: dec(enc(b)) == b)
      && (forall b: Block {:trigger enc(dec(b))} :: enc(dec(b)) == b)
    }
  }
}
