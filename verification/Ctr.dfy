/** Counter mode as source/windows/bcrypt_aes.c builds it from single-block
    encryption: input is cut into blocks, an incomplete last block waits in the
    overflow buffer, and the counter lives in the last four bytes of the IV. */
module Ctr {
  import opened Bytes
  import opened BlockCiphers
  import opened CipherCommon
  import CipherLifecycle

  const COUNTER_RANGE: nat := 0x1_0000_0000

  // ---------------------------------------------------------------- section 6.5 of NIST SP 800-38A

  function InitialCounter(iv: Block): nat {
    FromBigEndian(iv[12..])
  }

  /** The k-th counter block of a message. */
  function CounterBlock(iv: Block, k: nat): Block {
    iv[..12] + BigEndian(InitialCounter(iv) + k, 4)
  }

  function Min(a: nat, b: nat): nat {
    if a < b then a else b
  }

  /** A message whose first block is the k-th, in one go. */
  function CtrFrom(c: BlockCipher, iv: Block, k: nat, msg: bytes): (r: bytes)
    ensures |r| == |msg|
    decreases |msg|
  {
    if msg == [] then [] else
      var n := Min(16, |msg|);
      XorBytes(msg[..n], c.enc(CounterBlock(iv, k))) + CtrFrom(c, iv, k + 1, msg[n..])
  }

  function Ctr(c: BlockCipher, iv: Block, msg: bytes): bytes {
    CtrFrom(c, iv, 0, msg)
  }

  /** The number of counter values a message uses up. */
  function BlocksFor(len: nat): nat {
    (len + 15) / 16
  }

  /** The counter must not be exhausted by the message. */
  predicate CounterLasts(iv: Block, len: nat) {
    InitialCounter(iv) + BlocksFor(len) < COUNTER_RANGE
  }

  /** The counter values not used by the first k blocks. */
  function CountersLeft(iv: Block, k: nat): nat {
    if InitialCounter(iv) + k < COUNTER_RANGE then COUNTER_RANGE - InitialCounter(iv) - k else 0
  }

  lemma {:induction false} CtrAppend(c: BlockCipher, iv: Block, k: nat, x: bytes, y: bytes)
    requires |x| % 16 == 0
    ensures CtrFrom(c, iv, k, x + y) == CtrFrom(c, iv, k, x) + CtrFrom(c, iv, k + |x| / 16, y)
    decreases |x|
  {
    hide CtrFrom, CounterBlock, XorBytes;
    if x == [] {
      assert x + y == y;
      AppendNothing(CtrFrom(c, iv, k, y), CtrFrom(c, iv, k, x));
    } else {
      CtrFirst(c, iv, k, x);
      CtrFirst(c, iv, k, x + y);
      assert (x + y)[..16] == x[..16];
      assert (x + y)[16..] == x[16..] + y;
      CtrAppend(c, iv, k + 1, x[16..], y);
      assert k + 1 + |x[16..]| / 16 == k + |x| / 16;
      Assoc(XorBytes(x[..16], c.enc(CounterBlock(iv, k))), CtrFrom(c, iv, k + 1, x[16..]), CtrFrom(c, iv, k + |x| / 16, y));
    }
  }

  lemma CtrFirst(c: BlockCipher, iv: Block, k: nat, msg: bytes)
    requires |msg| >= 16
    ensures CtrFrom(c, iv, k, msg)
         == XorBytes(msg[..16], c.enc(CounterBlock(iv, k))) + CtrFrom(c, iv, k + 1, msg[16..])
  {
  }

  /** Counter mode is its own inverse, whatever the block cipher. */
  lemma {:induction false} CtrTwice(c: BlockCipher, iv: Block, k: nat, msg: bytes)
    ensures CtrFrom(c, iv, k, CtrFrom(c, iv, k, msg)) == msg
    decreases |msg|
  {
    if msg != [] {
      var n := Min(16, |msg|);
      var key, rest := c.enc(CounterBlock(iv, k)), CtrFrom(c, iv, k + 1, msg[n..]);
      var x, r := XorBytes(msg[..n], key), CtrFrom(c, iv, k, msg);
      assert r == x + rest && |x| == n;
      XorBytesTwice(msg[..n], key);
      CtrTwice(c, iv, k + 1, msg[n..]);
      Halves(x, rest);
      Rejoin(msg, n);
      assert CtrFrom(c, iv, k, r) == XorBytes(r[..n], key) + CtrFrom(c, iv, k + 1, r[n..]);
      hide *;
    }
  }

  lemma Pow256Of4()
    ensures Pow256(4) == COUNTER_RANGE
  {
    assert Pow256(2) == 0x1_0000;
    assert Pow256(3) == 0x100_0000;
  }

  lemma CounterOfBlock(iv: Block, k: nat)
    requires InitialCounter(iv) + k < COUNTER_RANGE
    ensures CounterBlock(iv, k)[..12] == iv[..12]
    ensures FromBigEndian(CounterBlock(iv, k)[12..]) == InitialCounter(iv) + k
  {
    Pow256Of4();
    FromToBigEndian(InitialCounter(iv) + k, 4);
    Halves(iv[..12], BigEndian(InitialCounter(iv) + k, 4));
  }

  lemma FirstCounterBlock(iv: Block)
    ensures CounterBlock(iv, 0) == iv && InitialCounter(iv) < COUNTER_RANGE
  {
    Pow256Of4();
    ToFromBigEndian(iv[12..]);
    Rejoin(iv, 12);
  }

  /** No counter block is used for two blocks of a message that succeeds. */
  lemma CounterBlocksAreDistinct(iv: Block, len: nat, j: nat, k: nat)
    requires CounterLasts(iv, len) && j < BlocksFor(len) && k < BlocksFor(len) && j != k
    ensures CounterBlock(iv, j) != CounterBlock(iv, k)
  {
    CounterOfBlock(iv, j);
    CounterOfBlock(iv, k);
  }

  /** The last four bytes of a block as a number. */
  function Word(b: Block): nat {
    0x100_0000 * (b[12] as int) + 0x1_0000 * (b[13] as int) + 0x100 * (b[14] as int) + b[15]
  }

  lemma WordIs(b: Block)
    ensures Word(b) == FromBigEndian(b[12..])
  {
    FromBigEndianFour(b[12..]);
  }

  /** The counter block for block k: the number in the last four bytes is k higher
      and the rest of the IV is kept. */
  lemma CounterBlockIs(iv: Block, k: nat)
    requires Word(iv) + k <= 0xffff_ffff
    ensures Word(CounterBlock(iv, k)) == Word(iv) + k && CounterBlock(iv, k)[..12] == iv[..12]
  {
    WordIs(iv);
    WordIs(CounterBlock(iv, k));
    hide Word, CounterBlock, FromBigEndian;
    CounterOfBlock(iv, k);
  }

  /** When the counter lasts: after the last block its value still fits. */
  lemma CounterLastsExactly(iv: Block, len: nat)
    ensures CounterLasts(iv, len) <==> len == 0 || Word(iv) + (len - 1) / 16 + 1 <= 0xffff_ffff
  {
    WordIs(iv);
    FirstCounterBlock(iv);
    hide Word, CounterBlock;
  }

  /** Section 6.5 of NIST SP 800-38A, byte by byte and bit by bit: byte i is
      combined with byte i % 16 of the encrypted counter block i / 16. */
  ghost predicate IsCtr(c: BlockCipher, iv: Block, msg: bytes, text: bytes) {
    && |text| == |msg|
    && forall i :: 0 <= i < |msg| ==> IsXor(text[i], msg[i], c.enc(CounterBlock(iv, i / 16))[i % 16])
  }

  lemma {:induction false} CtrByte(c: BlockCipher, iv: Block, k: nat, msg: bytes, i: nat)
    requires i < |msg|
    ensures CtrFrom(c, iv, k, msg)[i] == Xor(msg[i], c.enc(CounterBlock(iv, k + i / 16))[i % 16])
    decreases |msg|
  {
    hide Xor, CounterBlock;
    if i >= 16 {
      CtrByte(c, iv, k + 1, msg[16..], i - 16);
      assert k + 1 + (i - 16) / 16 == k + i / 16 && (i - 16) % 16 == i % 16;
    }
  }

  lemma CtrIs(c: BlockCipher, iv: Block, msg: bytes)
    ensures IsCtr(c, iv, msg, Ctr(c, iv, msg))
  {
    hide CtrFrom, IsXor, Xor, CounterBlock;
    forall i | 0 <= i < |msg|
      ensures IsXor(Ctr(c, iv, msg)[i], msg[i], c.enc(CounterBlock(iv, i / 16))[i % 16])
    {
      CtrByte(c, iv, 0, msg, i);
      XorIsBitwise(msg[i], c.enc(CounterBlock(iv, i / 16))[i % 16]);
    }
  }

  // ---------------------------------------------------------------- the cipher

  /** s_xor_cursors: appends the exclusive-or, as long as the shorter operand. */
  method XorCursors(a: bytes, b: bytes, dest: GrowableBuf)
    modifies dest
    ensures dest.contents == old(dest.contents) + XorBytes(a, b)
    ensures var n := |old(dest.contents)|;
            && |dest.contents| == n + (if |a| < |b| then |a| else |b|) && dest.contents[..n] == old(dest.contents)
            && forall i :: 0 <= i < |dest.contents| - n ==> IsXor(dest.contents[n + i], a[i], b[i])
  {
    hide IsXor, Xor;
    XorBytesIs(a, b);
    var n := Min(|b|, |a|);
    var r: bytes := [];
    var i := 0;
    while i < n
      invariant 0 <= i <= n && r == XorBytes(a, b)[..i]
    {
      r := r + [Xor(a[i], b[i])];
      i := i + 1;
    }
    dest.Append(r);
  }

  /** The slices of the working buffer: whole blocks and perhaps a shorter rest. */
  method SliceBlocks(working: bytes) returns (slices: seq<bytes>)
    ensures |slices| == BlocksFor(|working|)
    ensures forall i :: 0 <= i < |slices| ==>
              16 * i < |working| && slices[i] == working[16 * i..Min(16 * i + 16, |working|)]
  {
    hide Rest, IsSlice, BlocksFor;
    slices := [];
    var cur := working;
    AllIsLeft(working);
    while |cur| > 0
      invariant 16 * |slices| < |working| + 16
      invariant cur == Rest(working, |slices|)
      invariant forall i :: 0 <= i < |slices| ==> IsSlice(working, i, slices[i])
      decreases |cur|
    {
      NextSlice(working, |slices|, cur);
      if |cur| >= BLOCK_SIZE {
        slices, cur := slices + [cur[..16]], cur[16..];
      } else {
        slices, cur := slices + [cur], [];
      }
    }
    NothingIsLeft(working, |slices|);
    SlicesAre(working, slices);
  }

  /** What follows the first i slices. */
  function Rest(working: bytes, i: nat): bytes {
    working[Min(16 * i, |working|)..]
  }

  lemma AllIsLeft(working: bytes)
    ensures Rest(working, 0) == working
  {
  }

  lemma SlicesAre(working: bytes, slices: seq<bytes>)
    requires forall i :: 0 <= i < |slices| ==> IsSlice(working, i, slices[i])
    ensures forall i :: 0 <= i < |slices| ==>
              16 * i < |working| && slices[i] == working[16 * i..Min(16 * i + 16, |working|)]
  {
    forall i | 0 <= i < |slices|
      ensures 16 * i < |working| && slices[i] == working[16 * i..Min(16 * i + 16, |working|)]
    {
      assert IsSlice(working, i, slices[i]);
    }
  }

  ghost predicate IsSlice(working: bytes, i: nat, slice: bytes) {
    16 * i < |working| && slice == working[16 * i..Min(16 * i + 16, |working|)]
  }

  lemma NextSlice(working: bytes, i: nat, cur: bytes)
    requires |cur| > 0 && cur == Rest(working, i)
    ensures |cur| == |working| - 16 * i
    ensures |cur| >= 16 ==> IsSlice(working, i, cur[..16]) && cur[16..] == Rest(working, i + 1)
    ensures |cur| < 16 ==> IsSlice(working, i, cur) && [] == Rest(working, i + 1)
  {
  }

  lemma NothingIsLeft(working: bytes, n: nat)
    requires 16 * n < |working| + 16 && Rest(working, n) == []
    ensures n == BlocksFor(|working|)
  {
  }

  /** The last block, whole or not, costs one counter value. */
  lemma CtrOneMore(c: BlockCipher, iv: Block, k: nat, x: bytes, slice: bytes)
    requires |x| % 16 == 0 && 0 < |slice| <= 16
    ensures CtrFrom(c, iv, k, x + slice)
         == CtrFrom(c, iv, k, x) + XorBytes(slice, c.enc(CounterBlock(iv, k + |x| / 16)))
  {
    CtrAppend(c, iv, k, x, slice);
    CtrLast(c, iv, k + |x| / 16, slice);
    hide *;
  }

  lemma CtrLast(c: BlockCipher, iv: Block, k: nat, slice: bytes)
    requires 0 < |slice| <= 16
    ensures CtrFrom(c, iv, k, slice) == XorBytes(slice, c.enc(CounterBlock(iv, k)))
  {
    var n := |slice|;
    assert Min(16, n) == n && slice[..n] == slice;
    var x := XorBytes(slice, c.enc(CounterBlock(iv, k)));
    AppendNothing(x, CtrFrom(c, iv, k + 1, slice[n..]));
  }

  lemma NextCounterBlock(iv: Block, k: nat)
    requires InitialCounter(iv) + k < COUNTER_RANGE
    ensures var b := CounterBlock(iv, k);
            b[..12] + BigEndian(FromBigEndian(b[12..]) + 1, 4) == CounterBlock(iv, k + 1)
  {
    CounterOfBlock(iv, k);
  }

  /** The part of the working buffer that i slices have brought out. */
  function Done(working: bytes, limit: nat, i: nat): bytes
    requires limit <= |working|
  {
    working[..Min(16 * i, limit)]
  }

  /** One slice: either it lies in the part that is encrypted, up to limit, and
      takes the next counter value, or it is what remains behind that part. */
  lemma Turn(c: BlockCipher, iv: Block, k0: nat, working: bytes, limit: nat, all: bool, i: nat, slice: bytes)
    requires 16 * i < |working| && limit == if all then |working| else 16 * (|working| / 16)
    requires slice == working[16 * i..Min(16 * i + 16, |working|)]
    ensures 16 * i <= limit && BlocksFor(|Done(working, limit, i)|) == i && |slice| <= 16
    ensures |slice| == 16 ==> 16 * (i + 1) <= limit
    ensures if all || |slice| == 16 then
              && BlocksFor(|Done(working, limit, i + 1)|) == i + 1 <= BlocksFor(limit)
              && CtrFrom(c, iv, k0, Done(working, limit, i + 1))
              == CtrFrom(c, iv, k0, Done(working, limit, i)) + XorBytes(slice, c.enc(CounterBlock(iv, k0 + i)))
            else
              && limit == 16 * i && slice == working[limit..]
              && Done(working, limit, i + 1) == Done(working, limit, i)
  {
    hide CtrFrom, CounterBlock, XorBytes;
    assert all || |slice| == 16 || 16 * (|working| / 16) == 16 * i;
    if all || |slice| == 16 {
      assert Done(working, limit, i) + slice == Done(working, limit, i + 1);
      CtrOneMore(c, iv, k0, Done(working, limit, i), slice);
    }
  }

  lemma AllDone(working: bytes, limit: nat, i: nat)
    requires limit == |working| || limit == 16 * (|working| / 16)
    requires i == BlocksFor(|working|)
    ensures Done(working, limit, i) == working[..limit]
    ensures 16 * i <= limit ==> working[limit..] == []
  {
  }

  ghost predicate Between(c: BlockCipher, iv: Block, fed: bytes, emitted: bytes, workingIv: bytes, overflow: bytes) {
    && InitialCounter(iv) + |fed| / 16 < COUNTER_RANGE
    && workingIv == CounterBlock(iv, |fed| / 16)
    && overflow == fed[16 * (|fed| / 16)..]
    && emitted == Ctr(c, iv, fed[..16 * (|fed| / 16)])
  }

  lemma AtTheStart(c: BlockCipher, iv: Block)
    ensures Between(c, iv, [], [], iv, [])
  {
    FirstCounterBlock(iv);
  }

  lemma AtTheReset(c: BlockCipher, iv: Block)
    ensures Between(c, iv, [], [], [] + iv, [])
  {
    AtTheStart(c, iv);
    AppendNothing(iv, []);
    hide Between;
  }

  class CtrCipher {
    const cipher: BlockCipher
    var iv: Block
    var workingIv: bytes
    var overflow: bytes
    var good: bool

    /** The input and output of the run so far. */
    ghost var fed: bytes
    ghost var emitted: bytes

    /** What holds between calls of a run: whole blocks have gone out, the rest,
        always less than a block, is held back, and the counter is in step. */
    ghost predicate InStep()
      reads this
    {
      Between(cipher, iv, fed, emitted, workingIv, overflow)
    }

    ghost predicate Valid()
      reads this
    {
      good ==> InStep()
    }

    constructor (cipher: BlockCipher, iv: Block)
      ensures Valid() && good && this.cipher == cipher && this.iv == iv && fed == [] && emitted == []
    {
      hide Between;
      this.cipher, this.iv := cipher, iv;
      workingIv, overflow, good := iv, [], true;
      fed, emitted := [], [];
      AtTheStart(cipher, iv);
    }

    /** Encrypts the counter block, combines it with the slice and counts up. */
    method EncryptBlock(slice: bytes, out: GrowableBuf) returns (ok: bool)
      requires |workingIv| == 16 && |slice| <= 16
      modifies this`workingIv, this`good, out
      ensures out.contents == old(out.contents) + XorBytes(slice, cipher.enc(old(workingIv)))
      ensures var n := FromBigEndian(old(workingIv)[12..]);
              && (ok <==> n + 1 < COUNTER_RANGE)
              && (ok ==> workingIv == old(workingIv)[..12] + BigEndian(n + 1, 4))
              && good == (old(good) && ok)
    {
      XorCursors(slice, cipher.enc(workingIv), out);
      var counter := FromBigEndian(workingIv[12..]);
      Pow256Of4();
      ToFromBigEndian(workingIv[12..]);
      if counter == COUNTER_RANGE - 1 {
        good := false;
        return false;
      }
      workingIv := workingIv[..12] + BigEndian(counter + 1, 4);
      return true;
    }

    /** The loop over the slices. A whole block is encrypted; so is anything while
        the overflow is in use, which is how the last call finishes. Otherwise an
        incomplete block goes to the overflow. */
    method EncryptSlices(slices: seq<bytes>, out: GrowableBuf, ghost working: bytes, ghost k0: nat, ghost limit: nat)
      returns (ok: bool)
      requires good && InitialCounter(iv) + k0 < COUNTER_RANGE && workingIv == CounterBlock(iv, k0)
      requires limit == if overflow == [] then 16 * (|working| / 16) else |working|
      requires |slices| == BlocksFor(|working|)
      requires forall i :: 0 <= i < |slices| ==>
                 16 * i < |working| && slices[i] == working[16 * i..Min(16 * i + 16, |working|)]
      modifies this`workingIv, this`overflow, this`good, out
      ensures ok <==> InitialCounter(iv) + k0 + BlocksFor(limit) < COUNTER_RANGE
      ensures good == ok
      ensures ok ==>
                && out.contents == old(out.contents) + CtrFrom(cipher, iv, k0, working[..limit])
                && workingIv == CounterBlock(iv, k0 + BlocksFor(limit))
                && overflow == (if old(overflow) == [] then working[limit..] else old(overflow))
      ensures !ok ==>
                out.contents == old(out.contents) + CtrFrom(cipher, iv, k0, Done(working, limit, CountersLeft(iv, k0)))
    {
      hide CtrFrom, CounterBlock, InitialCounter, XorBytes, BlocksFor, Done, Min;
      ghost var all := overflow != [];
      NothingDone(cipher, iv, k0, working, limit);
      AppendNothing(out.contents, []);
      var i := 0;
      while i < |slices|
        invariant 0 <= i <= |slices|
        invariant good && InitialCounter(iv) + k0 + BlocksFor(|Done(working, limit, i)|) < COUNTER_RANGE
        invariant workingIv == CounterBlock(iv, k0 + BlocksFor(|Done(working, limit, i)|))
        invariant out.contents == old(out.contents) + CtrFrom(cipher, iv, k0, Done(working, limit, i))
        invariant overflow == if all then old(overflow) else if 16 * i > limit then working[limit..] else []
      {
        Turn(cipher, iv, k0, working, limit, all, i, slices[i]);
        if |slices[i]| == BLOCK_SIZE || |overflow| > 0 {
          CounterOfBlock(iv, k0 + i);
          NextCounterBlock(iv, k0 + i);
          Assoc(old(out.contents), CtrFrom(cipher, iv, k0, Done(working, limit, i)),
                XorBytes(slices[i], cipher.enc(workingIv)));
          ok := EncryptBlock(slices[i], out);
          if !ok {
            return;
          }
        } else {
          overflow := overflow + slices[i];
        }
        i := i + 1;
      }
      AllDone(working, limit, i);
      ok := true;
    }

    /** s_aes_ctr_encrypt. The last call passes the overflow buffer itself, which
        the source recognises by its address. */
    method EncryptCursor(input: bytes, isOverflow: bool, out: GrowableBuf) returns (ok: bool)
      requires good && InStep() && (isOverflow ==> input == overflow)
      modifies this`workingIv, this`overflow, this`good, out
      ensures var k0, working := |fed| / 16, old(overflow) + if isOverflow then [] else input;
              var limit := if isOverflow then |working| else 16 * (|working| / 16);
              && (ok <==> InitialCounter(iv) + k0 + BlocksFor(limit) < COUNTER_RANGE)
              && good == ok
              && (ok ==>
                    && out.contents == old(out.contents) + CtrFrom(cipher, iv, k0, working[..limit])
                    && workingIv == CounterBlock(iv, k0 + BlocksFor(limit))
                    && overflow == if isOverflow then old(overflow) else working[limit..])
              && (!ok ==>
                    out.contents == old(out.contents) + CtrFrom(cipher, iv, k0, Done(working, limit, CountersLeft(iv, k0))))
    {
      hide CtrFrom, CounterBlock, InitialCounter;
      ghost var k0 := |fed| / 16;
      AppendNothing(overflow, []);
      if |input| == 0 {
        NothingDone(cipher, iv, k0, overflow, 0);
        AppendNothing(out.contents, []);
        assert |overflow| < 16 && overflow[..0] == [] && overflow[0..] == overflow;
        return true;
      }
      var working := input;
      if |overflow| > 0 && !isOverflow {
        working, overflow := overflow + input, [];
      } else if !isOverflow {
        AppendNothing(input, overflow);
      }
      var slices := SliceBlocks(working);
      ok := EncryptSlices(slices, out, working, k0, if overflow == [] then 16 * (|working| / 16) else |working|);
    }

    /** aws_symmetric_cipher_encrypt and _decrypt, which are the same here. */
    method Encrypt(input: bytes, out: GrowableBuf) returns (status: Status, ghost released: bytes)
      requires Valid()
      modifies this`workingIv, this`overflow, this`good, this`fed, this`emitted, out
      ensures Valid()
      ensures status != InvalidArgument
      ensures status == BufferTooLarge <==> !WithinLimits(|input|, BLOCK_SIZE)
      ensures WithinLimits(|input|, BLOCK_SIZE) ==> (status == InvalidState <==> !old(good))
      ensures old(good) && WithinLimits(|input|, BLOCK_SIZE) ==>
                (status == Success <==> InitialCounter(iv) + (|old(fed)| + |input|) / 16 < COUNTER_RANGE)
      ensures good == (old(good) && status != CounterExhausted)
      ensures out.contents == old(out.contents) + released && emitted == old(emitted) + released
      ensures status == BufferTooLarge || status == InvalidState ==> unchanged(this) && unchanged(out)
      ensures status == Success || status == CounterExhausted ==> fed == old(fed) + input
      ensures status == CounterExhausted ==>
                && 16 * CountersLeft(iv, 0) <= |fed|
                && emitted == Ctr(cipher, iv, fed[..16 * CountersLeft(iv, 0)])
    {
      hide CtrFrom, CounterBlock, InitialCounter, Ctr, BlocksFor;
      released := [];
      AppendNothing(fed, []);
      AppendNothing(emitted, []);
      AppendNothing(out.contents, []);
      if !WithinLimits(|input|, BLOCK_SIZE) {
        return BufferTooLarge, released;
      }
      if !good {
        return InvalidState, released;
      }
      FeedMore(cipher, iv, fed, input);
      ghost var k0, working := |fed| / 16, overflow + input;
      released := CtrFrom(cipher, iv, k0, working[..16 * (|working| / 16)]);
      var ok := EncryptCursor(input, false, out);
      if !ok {
        released := CtrFrom(cipher, iv, k0, Done(working, 16 * (|working| / 16), CountersLeft(iv, k0)));
        Stopped(cipher, iv, fed, input);
        fed := fed + input;
        emitted := emitted + released;
        return CounterExhausted, released;
      }
      fed := fed + input;
      emitted := emitted + released;
      return Success, released;
    }

    /** aws_symmetric_cipher_finalize_encryption and _decryption: the whole message
        has now gone out. Success is reported only if a counter value is left
        after its last block. */
    method Finalize(out: GrowableBuf) returns (status: Status, ghost released: bytes)
      requires Valid()
      modifies this`workingIv, this`overflow, this`good, this`emitted, out
      ensures !good
      ensures status == Success || status == InvalidState || status == CounterExhausted
      ensures status == InvalidState <==> !old(good)
      ensures old(good) ==> (status == Success <==> CounterLasts(iv, |fed|))
      ensures old(good) ==> emitted == Ctr(cipher, iv, fed)
      ensures out.contents == old(out.contents) + released && emitted == old(emitted) + released
      ensures !old(good) ==> unchanged(this) && unchanged(out)
    {
      hide CtrFrom, CounterBlock, InitialCounter, Ctr, BlocksFor;
      released := [];
      AppendNothing(emitted, []);
      AppendNothing(out.contents, []);
      if !good {
        return InvalidState, released;
      }
      LastBlock(cipher, iv, fed);
      AppendNothing(overflow, []);
      assert overflow[..|overflow|] == overflow;
      released := CtrFrom(cipher, iv, |fed| / 16, overflow);
      assert Done(overflow, |overflow|, CountersLeft(iv, |fed| / 16)) == overflow;
      var ok := EncryptCursor(overflow, true, out);
      overflow, workingIv := [], [];
      good := false;
      emitted := emitted + released;
      return if ok then Success else CounterExhausted, released;
    }

    /** aws_symmetric_cipher_reset: a new run, as from a new cipher. */
    method Reset()
      modifies this`workingIv, this`overflow, this`good, this`fed, this`emitted
      ensures Valid() && good && fed == [] && emitted == []
    {
      hide Between;
      AtTheReset(cipher, iv);
      workingIv, overflow := [], [];
      workingIv := workingIv + iv;
      good := true;
      fed, emitted := [], [];
    }
  }

  /** A run that the counter stops has used every counter value there is. */
  lemma Stopped(c: BlockCipher, iv: Block, fed: bytes, input: bytes)
    requires InitialCounter(iv) + |fed| / 16 < COUNTER_RANGE <= InitialCounter(iv) + (|fed| + |input|) / 16
    ensures var k0, n := |fed| / 16, CountersLeft(iv, 0);
            var working := fed[16 * k0..] + input;
            && 16 * n <= |fed + input|
            && Ctr(c, iv, (fed + input)[..16 * n])
            == Ctr(c, iv, fed[..16 * k0]) + CtrFrom(c, iv, k0, Done(working, 16 * (|working| / 16), CountersLeft(iv, k0)))
  {
    hide CtrFrom, InitialCounter;
    var k0, n, j := |fed| / 16, CountersLeft(iv, 0), CountersLeft(iv, |fed| / 16);
    var working := fed[16 * k0..] + input;
    assert n == k0 + j && 16 * j <= 16 * (|working| / 16);
    assert (fed + input)[..16 * n] == fed[..16 * k0] + working[..16 * j];
    CtrAppend(c, iv, 0, fed[..16 * k0], working[..16 * j]);
  }

  /** Holding back an incomplete block does not change what comes out. */
  lemma FeedMore(c: BlockCipher, iv: Block, fed: bytes, input: bytes)
    ensures var k0, k := |fed| / 16, |fed + input| / 16;
            var working := fed[16 * k0..] + input;
            var limit := 16 * (|working| / 16);
            && k == (|fed| + |input|) / 16 == k0 + BlocksFor(limit)
            && working[limit..] == (fed + input)[16 * k..]
            && Ctr(c, iv, (fed + input)[..16 * k]) == Ctr(c, iv, fed[..16 * k0]) + CtrFrom(c, iv, k0, working[..limit])
  {
    hide CtrFrom;
    var k0, k := |fed| / 16, |fed + input| / 16;
    var working := fed[16 * k0..] + input;
    var limit := 16 * (|working| / 16);
    assert 16 * k == 16 * k0 + limit;
    assert fed + input == fed[..16 * k0] + working;
    assert (fed + input)[..16 * k] == fed[..16 * k0] + working[..limit];
    CtrAppend(c, iv, 0, fed[..16 * k0], working[..limit]);
  }

  lemma LastBlock(c: BlockCipher, iv: Block, fed: bytes)
    ensures var k0 := |fed| / 16;
            && k0 + BlocksFor(|fed[16 * k0..]|) == BlocksFor(|fed|)
            && Ctr(c, iv, fed) == Ctr(c, iv, fed[..16 * k0]) + CtrFrom(c, iv, k0, fed[16 * k0..])
  {
    hide CtrFrom;
    var k0 := |fed| / 16;
    Rejoin(fed, 16 * k0);
    CtrAppend(c, iv, 0, fed[..16 * k0], fed[16 * k0..]);
  }

  lemma NothingDone(c: BlockCipher, iv: Block, k0: nat, working: bytes, limit: nat)
    requires limit <= |working|
    ensures Done(working, limit, 0) == [] && BlocksFor(0) == 0 && CtrFrom(c, iv, k0, []) == []
  {
  }

  // ---------------------------------------------------------------- whole runs

  /** Feeds the chunks to a cipher that is at the start of a run. */
  method CtrRun(k: CtrCipher, chunks: seq<bytes>) returns (r: Option<bytes>)
    requires k.Valid() && k.good && k.fed == [] && k.emitted == []
    requires forall x :: x in chunks ==> WithinLimits(|x|, BLOCK_SIZE)
    modifies k`workingIv, k`overflow, k`good, k`fed, k`emitted
    ensures r.Some? <==> CounterLasts(k.iv, |Concat(chunks)|)
    ensures r.Some? ==> r.value == Ctr(k.cipher, k.iv, Concat(chunks))
  {
    hide Ctr, InitialCounter;
    var out := new GrowableBuf();
    var i := 0;
    while i < |chunks|
      invariant 0 <= i <= |chunks|
      invariant k.Valid() && k.good && k.fed == Concat(chunks[..i]) && k.emitted == out.contents
    {
      ConcatSplit(chunks, i);
      var status, _ := k.Encrypt(chunks[i], out);
      if status != Success {
        return None;
      }
      i := i + 1;
    }
    assert chunks[..i] == chunks;
    var status, _ := k.Finalize(out);
    r := if status == Success then Some(out.contents) else None;
  }

  /** For every message and every split into calls: the run succeeds exactly when
      the counter lasts, and its output is the one-shot counter mode. */
  method CtrChunks(c: BlockCipher, iv: Block, chunks: seq<bytes>) returns (r: Option<bytes>)
    requires forall x :: x in chunks ==> WithinLimits(|x|, BLOCK_SIZE)
    ensures r.Some? <==> CounterLasts(iv, |Concat(chunks)|)
    ensures r.Some? ==> r.value == Ctr(c, iv, Concat(chunks)) && IsCtr(c, iv, Concat(chunks), r.value)
  {
    hide Ctr, CounterLasts, IsCtr;
    CtrIs(c, iv, Concat(chunks));
    var k := new CtrCipher(c, iv);
    r := CtrRun(k, chunks);
  }

  /** So it is after any calls and a reset. */
  method CtrAfterReset(c: BlockCipher, iv: Block, requests: seq<CipherLifecycle.Request>, chunks: seq<bytes>)
    returns (r: Option<bytes>)
    requires forall x :: x in chunks ==> WithinLimits(|x|, BLOCK_SIZE)
    ensures r.Some? <==> CounterLasts(iv, |Concat(chunks)|)
    ensures r.Some? ==> r.value == Ctr(c, iv, Concat(chunks))
  {
    hide Ctr, CounterLasts, Between;
    var k := new CtrCipher(c, iv);
    var scrap := new GrowableBuf();
    for i := 0 to |requests|
      invariant k.Valid() && k.iv == iv
    {
      match requests[i] {
        case Encrypt(input) => var _, _ := k.Encrypt(input, scrap);
        case Decrypt(input) => var _, _ := k.Encrypt(input, scrap);
        case Reset => k.Reset();
        case _ => var _, _ := k.Finalize(scrap);
      }
    }
    k.Reset();
    r := CtrRun(k, chunks);
  }

  /** Running the output of a run under any split through a run under any other
      split gives the message back, if and only if the counter lasts. */
  method CtrChunksAgain(c: BlockCipher, iv: Block, chunks: seq<bytes>, split: bytes -> seq<bytes>)
    returns (r: Option<bytes>)
    requires (forall x :: x in chunks ==> WithinLimits(|x|, BLOCK_SIZE)) && Splits(split)
    ensures r == if CounterLasts(iv, |Concat(chunks)|) then Some(Concat(chunks)) else None
  {
    hide CounterLasts;
    r := CtrChunks(c, iv, chunks);
    if r.Some? {
      CtrTwice(c, iv, 0, Concat(chunks));
      r := CtrChunks(c, iv, split(r.value));
    }
  }
}
