/** What the block-mode ciphers share: result codes, the input size limit of
    source/symmetric_cipher.c, the part of a reset that wipes the working IV, and
    the bookkeeping for runs that are fed chunk by chunk. */
module CipherCommon {
  import opened Bytes
  import opened BlockCiphers

  datatype Status = Success | InvalidState | BufferTooLarge | InvalidArgument | CounterExhausted

  const INT_MAX: nat := 0x7fff_ffff

  /** s_check_input_size_limits */
  predicate WithinLimits(len: nat, blockSize: nat)
    requires blockSize <= INT_MAX
  {
    len <= INT_MAX - blockSize
  }

  /** What may be passed on fits an int together with one block. */
  lemma LimitIs(len: nat, blockSize: nat)
    requires blockSize <= 2147483647
    ensures WithinLimits(len, blockSize) <==> len + blockSize <= 2147483647
  {
  }

  /** s_clear_reusable_components: the working IV is wiped unless it is the
      stored IV itself, which therefore survives in either case. */
  method ClearWorkingIv(iv: GrowableBuf, workingIv: GrowableBuf)
    modifies workingIv
    ensures iv.contents == old(iv.contents)
    ensures iv != workingIv ==> workingIv.contents == []
  {
    if iv != workingIv {
      workingIv.SecureZero();
    }
  }

  predicate AllWithinLimits(chunks: seq<bytes>) {
    forall x :: x in chunks ==> WithinLimits(|x|, BLOCK_SIZE)
  }

  /** Any way at all of cutting data into pieces that one call can take. */
  ghost predicate Splits(split: bytes -> seq<bytes>) {
    forall s: bytes :: Concat(split(s)) == s && AllWithinLimits(split(s))
  }

  /** One such way: byte by byte. */
  function Singles(s: bytes): seq<bytes> {
    if s == [] then [] else [[s[0]]] + Singles(s[1..])
  }

  lemma {:induction false} SinglesConcat(s: bytes)
    ensures Concat(Singles(s)) == s && AllWithinLimits(Singles(s))
  {
    if s != [] {
      SinglesConcat(s[1..]);
      assert Singles(s)[0] == [s[0]] && Singles(s)[1..] == Singles(s[1..]);
      Rejoin(s, 1);
      assert forall x :: x in Singles(s) ==> x == [s[0]] || x in Singles(s[1..]);
    }
  }

  lemma BytewiseSplits()
    ensures Splits(Singles)
  {
    forall s: bytes
      ensures Concat(Singles(s)) == s && AllWithinLimits(Singles(s))
    {
      SinglesConcat(s);
    }
  }

  lemma ConcatSplit(chunks: seq<bytes>, i: nat)
    requires i < |chunks|
    ensures Concat(chunks[..i + 1]) == Concat(chunks[..i]) + chunks[i]
    ensures |Concat(chunks[..i])| + |chunks[i]| <= |Concat(chunks)|
  {
    assert chunks[..i + 1] == chunks[..i] + [chunks[i]];
    ConcatOne(chunks[..i], chunks[i]);
    assert chunks == chunks[..i + 1] + chunks[i + 1..];
    ConcatAppend(chunks[..i + 1], chunks[i + 1..]);
  }
}
