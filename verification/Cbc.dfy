/** CBC as source/windows/bcrypt_aes.c drives it: between 1 and 32 bytes are
    always held back, so that the last call alone sees the padding. The
    provider's CBC is modelled by its chaining value. */
module Cbc {
  import opened Bytes
  import opened BlockCiphers
  import opened CbcSpec
  import opened CipherCommon
  import CipherLifecycle

  const RESERVE_SIZE: nat := 32

  // ---------------------------------------------------------------- what is held back

  /** The number of bytes held back of a total: a function of the total alone. */
  function Held(total: nat): (h: nat)
    ensures h <= total && h <= 32 && (total - h) % 32 == 0
    ensures total > 0 ==> h > 0
  {
    if total == 0 then 0 else total - 32 * ((total - 1) / 32)
  }

  function Sent(total: nat): (s: nat)
    ensures s <= total && s % 32 == 0 && s % 16 == 0
  {
    EvenBlocks(total - Held(total));
    total - Held(total)
  }

  lemma EvenBlocks(n: nat)
    requires n % 32 == 0
    ensures n % 16 == 0
  {
    assert n == 16 * (2 * (n / 32));
  }

  lemma HeldIsUnique(total: nat, h: nat, q: nat)
    requires total == h + 32 * q && h <= 32 && (total > 0 ==> h > 0)
    ensures h == Held(total) && Sent(total) == 32 * q
  {
    if total > 0 {
      assert total - 1 == 32 * q + (h - 1);
    }
  }

  /** Holding back of what was held back and new input is holding back of all. */
  lemma Advance(fed: bytes, input: bytes, data: bytes, rest: bytes)
    requires data + rest == fed[Sent(|fed|)..] + input
    requires |rest| == Held(|fed| - Sent(|fed|) + |input|)
    ensures |data| % 16 == 0
    ensures (fed + input)[..Sent(|fed + input|)] == fed[..Sent(|fed|)] + data
    ensures (fed + input)[Sent(|fed + input|)..] == rest
  {
    hide *;
    HeldTwice(|fed|, |input|);
    var s := Sent(|fed|);
    SplitMoves(fed, input, s, data, rest);
    SentHeld(|fed + input|);
    Halves(fed[..s] + data, rest);
  }

  lemma SplitMoves(fed: bytes, input: bytes, s: nat, data: bytes, rest: bytes)
    requires s <= |fed| && data + rest == fed[s..] + input
    ensures fed + input == (fed[..s] + data) + rest && |data| + |rest| == |fed| - s + |input|
  {
    Rejoin(fed, s);
    Assoc(fed[..s], fed[s..], input);
    Assoc(fed[..s], data, rest);
    assert |data + rest| == |fed[s..] + input|;
  }

  lemma HeldTwice(total: nat, more: nat)
    ensures Held(total - Sent(total) + more) == Held(total + more)
    ensures Sent(total + more) == Sent(total) + Sent(total - Sent(total) + more)
    ensures total - Sent(total) + more - Held(total + more) == Sent(total + more) - Sent(total)
    ensures (Sent(total + more) - Sent(total)) % 16 == 0
  {
    var rest := total - Sent(total) + more;
    SentHeld(rest);
    hide Held, Sent;
    var q, q' := Sent(total) / 32, Sent(rest) / 32;
    HeldIsUnique(total + more, Held(rest), q + q');
    assert 32 * q' == 16 * (2 * q');
  }

  lemma SentHeld(total: nat)
    ensures Sent(total) + Held(total) == total
  {
    hide Held;
  }

  /** Whole pairs of blocks have gone out encrypted, the rest is held back, and
      the chaining value is in step. */
  ghost predicate Sealing(c: BlockCipher, iv: Block, fed: bytes, overflow: bytes, emitted: bytes, chain: Block) {
    && overflow == fed[Sent(|fed|)..]
    && emitted == CbcEnc(c, iv, fed[..Sent(|fed|)])
    && chain == NextChain(iv, emitted)
  }

  ghost predicate Opening(c: BlockCipher, iv: Block, fed: bytes, overflow: bytes, emitted: bytes, chain: Block) {
    && overflow == fed[Sent(|fed|)..]
    && emitted == CbcDec(c, iv, fed[..Sent(|fed|)])
    && chain == NextChain(iv, fed[..Sent(|fed|)])
  }

  lemma AtTheStart(c: BlockCipher, iv: Block)
    ensures Sealing(c, iv, [], [], [], iv) && Opening(c, iv, [], [], [], iv)
  {
    CbcEncNothing(c, iv, []);
    CbcDecNothing(c, iv, []);
  }

  lemma SealingGoesOn(c: BlockCipher, iv: Block, fed: bytes, overflow: bytes, emitted: bytes, chain: Block,
                      input: bytes, data: bytes, rest: bytes)
    requires Sealing(c, iv, fed, overflow, emitted, chain)
    requires data + rest == overflow + input && |rest| == Held(|overflow| + |input|) && |data| % 16 == 0
    ensures var e := CbcEnc(c, chain, data);
            Sealing(c, iv, fed + input, rest, emitted + e, NextChain(chain, e))
  {
    hide CbcEnc, NextChain, Held, Sent;
    Advance(fed, input, data, rest);
    CbcEncAppend(c, iv, fed[..Sent(|fed|)], data);
    NextChainAppend(iv, emitted, CbcEnc(c, chain, data));
  }

  lemma OpeningGoesOn(c: BlockCipher, iv: Block, fed: bytes, overflow: bytes, emitted: bytes, chain: Block,
                      input: bytes, data: bytes, rest: bytes)
    requires Opening(c, iv, fed, overflow, emitted, chain)
    requires data + rest == overflow + input && |rest| == Held(|overflow| + |input|) && |data| % 16 == 0
    ensures Opening(c, iv, fed + input, rest, emitted + CbcDec(c, chain, data), NextChain(chain, data))
  {
    hide CbcDec, NextChain, Held, Sent;
    Advance(fed, input, data, rest);
    CbcDecAppend(c, iv, fed[..Sent(|fed|)], data);
    NextChainAppend(iv, fed[..Sent(|fed|)], data);
  }

  lemma SealingEnds(c: BlockCipher, iv: Block, fed: bytes, overflow: bytes, emitted: bytes, chain: Block)
    requires Sealing(c, iv, fed, overflow, emitted, chain)
    ensures Seal(c, iv, fed) == emitted + if overflow == [] then [] else Seal(c, chain, overflow)
  {
    hide CbcEnc, NextChain, Held, Sent, Seal;
    SealBehind(c, iv, fed);
  }

  lemma OpeningEnds(c: BlockCipher, iv: Block, fed: bytes, overflow: bytes, emitted: bytes, chain: Block)
    requires Opening(c, iv, fed, overflow, emitted, chain)
    ensures var m := if overflow == [] then Some([]) else Open(c, chain, overflow);
            Open(c, iv, fed) == if m.Some? then Some(emitted + m.value) else None
  {
    hide CbcDec, NextChain, Held, Sent, Open;
    OpenBehind(c, iv, fed);
  }

  // ---------------------------------------------------------------- the cipher

  class CbcCipher {
    const cipher: BlockCipher
    const iv: GrowableBuf
    const workingIv: GrowableBuf
    var chain: Block
    var overflow: bytes
    var padding: bool
    var good: bool

    /** The input and output of the run so far. */
    ghost var fed: bytes
    ghost var emitted: bytes

    /** The working IV is the stored one, not a copy. */
    ghost predicate Sound()
      reads this, iv
    {
      |iv.contents| == 16 && workingIv == iv
    }

    /** What holds between the calls of an encrypting run ... */
    ghost predicate Encrypting()
      requires Sound()
      reads this, iv
    {
      Sealing(cipher, iv.contents, fed, overflow, emitted, chain)
    }

    /** ... and of a decrypting one. */
    ghost predicate Decrypting()
      requires Sound()
      reads this, iv
    {
      Opening(cipher, iv.contents, fed, overflow, emitted, chain)
    }

    constructor (cipher: BlockCipher, iv: Block)
      ensures Sound() && this.cipher == cipher && this.iv.contents == iv && fresh(this.iv)
      ensures good && Encrypting() && Decrypting() && fed == [] && emitted == []
    {
      hide Sealing, Opening;
      AtTheStart(cipher, iv);
      this.cipher := cipher;
      var buf := new GrowableBuf();
      buf.contents := iv;
      this.iv, workingIv := buf, buf;
      chain, overflow, padding, good := iv, [], false, true;
      fed, emitted := [], [];
    }

    /** s_fill_in_overflow: what may go out now, in whole pairs of blocks. */
    method FillInOverflow(input: bytes) returns (data: bytes)
      modifies this`overflow, this`padding
      ensures !padding
      ensures data + overflow == old(overflow) + input
      ensures |overflow| == Held(|old(overflow)| + |input|)
      ensures |data| == Sent(|old(overflow)| + |input|)
    {
      padding := false;
      if |overflow| > 0 {
        data := overflow + input;
        overflow := [];
      } else {
        data := input;
      }
      assert data == old(overflow) + input;
      var excess := |data| % RESERVE_SIZE;
      if |data| > RESERVE_SIZE {
        var offset := if excess == 0 then RESERVE_SIZE else excess;
        HeldIsUnique(|data|, offset, |data| / RESERVE_SIZE - (if excess == 0 then 1 else 0));
        Rejoin(data, |data| - offset);
        overflow := data[|data| - offset..];
        data := data[..|data| - offset];
      } else {
        HeldIsUnique(|data|, |data|, 0);
        overflow := data;
        data := [];
      }
    }

    /** s_aes_default_encrypt around the provider's CBC encryption. */
    method DefaultEncrypt(data: bytes, out: GrowableBuf)
      requires padding || |data| % 16 == 0
      modifies this`chain, out
      ensures var e := if !padding then CbcEnc(cipher, old(chain), data) else Seal(cipher, old(chain), data);
              out.contents == old(out.contents) + e && chain == NextChain(old(chain), e)
    {
      if |data| == 0 {
        CbcEncNothing(cipher, chain, []);
        AppendNothing(out.contents, []);
        return;
      }
      var text := CbcEnc(cipher, chain, if padding then Pad(data) else data);
      chain := NextChain(chain, text);
      out.Append(text);
    }

    /** s_default_aes_decrypt around the provider's CBC decryption, which refuses
        partial blocks and wrong padding. */
    method DefaultDecrypt(data: bytes, out: GrowableBuf) returns (ok: bool)
      requires padding || |data| % 16 == 0
      modifies this`chain, this`good, out
      ensures good == (old(good) && ok)
      ensures !padding ==>
                && ok && out.contents == old(out.contents) + CbcDec(cipher, old(chain), data)
                && chain == NextChain(old(chain), data)
      ensures padding ==>
                var m := Open(cipher, old(chain), data);
                && ok == m.Some? && chain == old(chain)
                && out.contents == old(out.contents) + (if m.Some? then m.value else [])
    {
      hide CbcDec, NextChain, Open;
      AppendNothing(out.contents, []);
      if |data| == 0 {
        CbcDecNothing(cipher, chain, []);
        OpenCases(cipher, chain, data);
        return true;
      }
      if padding {
        var msg := Open(cipher, chain, data);
        if msg.None? {
          good := false;
          return false;
        }
        out.Append(msg.value);
      } else {
        var msg := CbcDec(cipher, chain, data);
        chain := NextChain(chain, data);
        out.Append(msg);
      }
      return true;
    }

    /** aws_symmetric_cipher_encrypt */
    method Encrypt(input: bytes, out: GrowableBuf) returns (status: Status, ghost released: bytes)
      requires Sound() && out != iv
      modifies this`chain, this`overflow, this`padding, this`fed, this`emitted, out
      ensures Sound() && iv.contents == old(iv.contents)
      ensures status == if !WithinLimits(|input|, BLOCK_SIZE) then BufferTooLarge else if !good then InvalidState else Success
      ensures old(Encrypting()) ==> Encrypting()
      ensures status != Success ==> unchanged(this) && unchanged(out)
      ensures status == Success ==>
                var all := old(overflow) + input;
                && overflow == all[Sent(|all|)..]
                && released == CbcEnc(cipher, old(chain), all[..Sent(|all|)])
                && chain == NextChain(old(chain), released)
      ensures fed == old(fed) + if status == Success then input else []
      ensures out.contents == old(out.contents) + released && emitted == old(emitted) + released
      ensures |released| % 32 == 0
    {
      hide CbcEnc, NextChain, Held, Sealing;
      released := [];
      AppendNothing(fed, []);
      AppendNothing(emitted, []);
      AppendNothing(out.contents, []);
      if !WithinLimits(|input|, BLOCK_SIZE) {
        return BufferTooLarge, released;
      }
      if !good {
        return InvalidState, released;
      }
      ghost var f, inStep := fed, Encrypting();
      var data := FillInOverflow(input);
      Halves(data, overflow);
      released := CbcEnc(cipher, chain, data);
      if inStep {
        SealingGoesOn(cipher, iv.contents, f, old(overflow), emitted, chain, input, data, overflow);
      }
      DefaultEncrypt(data, out);
      fed, emitted := fed + input, emitted + released;
      return Success, released;
    }

    /** aws_symmetric_cipher_finalize_encryption: what was held back goes out
        padded, and the run has emitted the whole sealed message. */
    method FinalizeEncryption(out: GrowableBuf) returns (status: Status, ghost released: bytes)
      requires Sound() && out != iv
      modifies this`chain, this`overflow, this`padding, this`good, this`emitted, out
      ensures Sound() && iv.contents == old(iv.contents)
      ensures !good
      ensures status == if old(good) then Success else InvalidState
      ensures status == InvalidState ==> unchanged(this) && unchanged(out)
      ensures out.contents == old(out.contents) + released && emitted == old(emitted) + released
      ensures status == Success ==>
                && released == Seal(cipher, old(chain), old(overflow))
                && overflow == [] && chain == NextChain(old(chain), released)
      ensures old(good && Encrypting()) ==> emitted == Seal(cipher, iv.contents, fed)
      ensures status == Success ==> SealsAs(cipher, old(chain), old(overflow), released)
      ensures old(good && Encrypting()) ==> SealsAs(cipher, iv.contents, fed, emitted)
    {
      hide CbcEnc, NextChain, Sealing, Seal, SealsAs;
      released := [];
      AppendNothing(emitted, []);
      AppendNothing(out.contents, []);
      if !good {
        return InvalidState, released;
      }
      SealNothing(cipher, chain);
      CbcEncNothing(cipher, chain, []);
      if Encrypting() {
        SealingEnds(cipher, iv.contents, fed, overflow, emitted, chain);
      }
      if |overflow| > 0 {
        padding := true;
        released := Seal(cipher, chain, overflow);
        DefaultEncrypt(overflow, out);
        overflow := [];
      }
      emitted := emitted + released;
      good := false;
      SealExactly(cipher, old(chain), old(overflow), released);
      SealExactly(cipher, iv.contents, fed, emitted);
      return Success, released;
    }

    /** aws_symmetric_cipher_decrypt */
    method Decrypt(input: bytes, out: GrowableBuf) returns (status: Status, ghost released: bytes)
      requires Sound() && out != iv
      modifies this`chain, this`overflow, this`padding, this`good, this`fed, this`emitted, out
      ensures Sound() && iv.contents == old(iv.contents) && good == old(good)
      ensures status == if !WithinLimits(|input|, BLOCK_SIZE) then BufferTooLarge else if !good then InvalidState else Success
      ensures old(Decrypting()) ==> Decrypting()
      ensures status != Success ==> unchanged(this) && unchanged(out)
      ensures status == Success ==>
                var all := old(overflow) + input;
                && overflow == all[Sent(|all|)..]
                && released == CbcDec(cipher, old(chain), all[..Sent(|all|)])
                && chain == NextChain(old(chain), all[..Sent(|all|)])
      ensures fed == old(fed) + if status == Success then input else []
      ensures out.contents == old(out.contents) + released && emitted == old(emitted) + released
      ensures |released| % 32 == 0
    {
      hide CbcDec, NextChain, Held, Opening;
      released := [];
      AppendNothing(fed, []);
      AppendNothing(emitted, []);
      AppendNothing(out.contents, []);
      if !WithinLimits(|input|, BLOCK_SIZE) {
        return BufferTooLarge, released;
      }
      if !good {
        return InvalidState, released;
      }
      ghost var f, inStep := fed, Decrypting();
      var data := FillInOverflow(input);
      Halves(data, overflow);
      released := CbcDec(cipher, chain, data);
      if inStep {
        OpeningGoesOn(cipher, iv.contents, f, old(overflow), emitted, chain, input, data, overflow);
      }
      var ok := DefaultDecrypt(data, out);
      fed, emitted := fed + input, emitted + released;
      return Success, released;
    }

    /** aws_symmetric_cipher_finalize_decryption: succeeds exactly on what opens,
        and the run has then emitted the message. */
    method FinalizeDecryption(out: GrowableBuf) returns (status: Status, ghost released: bytes)
      requires Sound() && out != iv
      modifies this`chain, this`overflow, this`padding, this`good, this`emitted, out
      ensures Sound() && iv.contents == old(iv.contents)
      ensures !good
      ensures status == Success || status == InvalidState || status == InvalidArgument
      ensures status == InvalidState <==> !old(good)
      ensures status == InvalidState ==> unchanged(this) && unchanged(out)
      ensures out.contents == old(out.contents) + released && emitted == old(emitted) + released
      ensures old(good) ==>
                Open(cipher, old(chain), old(overflow)) == if status == Success then Some(released) else None
      ensures status != Success ==> released == []
      ensures old(good) ==> overflow == [] && chain == old(chain)
      ensures old(good) ==>
                forall m :: OpensAs(cipher, old(chain), old(overflow), m) <==> status == Success && m == released
      ensures old(good && Decrypting()) ==>
                forall m :: OpensAs(cipher, iv.contents, fed, m) <==> status == Success && m == emitted
      ensures old(good && Decrypting()) ==>
                Open(cipher, iv.contents, fed) == if status == Success then Some(emitted) else None
    {
      hide CbcDec, NextChain, Opening, Open, CbcEnc, OpensAs;
      released := [];
      AppendNothing(emitted, []);
      AppendNothing(out.contents, []);
      if !good {
        return InvalidState, released;
      }
      OpenCases(cipher, chain, overflow);
      OpenExactlyAll(cipher, chain, overflow);
      OpenExactlyAll(cipher, iv.contents, fed);
      if Decrypting() {
        OpeningEnds(cipher, iv.contents, fed, overflow, emitted, chain);
      }
      if |overflow| > 0 {
        padding := true;
        ghost var m := Open(cipher, chain, overflow);
        var ok := DefaultDecrypt(overflow, out);
        overflow := [];
        if !ok {
          return InvalidArgument, released;
        }
        released := m.value;
      }
      emitted := emitted + released;
      good := false;
      return Success, released;
    }

    /** s_reset_cbc_cipher and aws_symmetric_cipher_reset: a new run, as from a
        new cipher. The working IV is wiped only where it is a copy; here that
        would wipe the stored one. */
    method Reset()
      requires Sound()
      modifies this`chain, this`overflow, this`padding, this`good, this`fed, this`emitted, workingIv
      ensures Sound() && iv.contents == old(iv.contents)
      ensures good && Encrypting() && Decrypting() && fed == [] && emitted == []
      ensures overflow == [] && chain == iv.contents
    {
      hide Sealing, Opening;
      AtTheStart(cipher, iv.contents);
      ClearWorkingIv(iv, workingIv);
      chain, overflow, padding, good := iv.contents, [], false, true;
      fed, emitted := [], [];
    }
  }

  /** Sealing the held-back rest under the chained value finishes the message. */
  lemma SealBehind(c: BlockCipher, iv: Block, fed: bytes)
    ensures var e := CbcEnc(c, iv, fed[..Sent(|fed|)]);
            Seal(c, iv, fed) == e + Seal(c, NextChain(iv, e), fed[Sent(|fed|)..])
    ensures fed[Sent(|fed|)..] == [] <==> fed == []
    ensures Seal(c, iv, []) == []
  {
    hide CbcEnc, NextChain, Pad;
    var x, y := fed[..Sent(|fed|)], fed[Sent(|fed|)..];
    var e := CbcEnc(c, iv, x);
    Rejoin(fed, Sent(|fed|));
    PadBehind(x, y);
    CbcEncAppend(c, iv, x, Pad(y));
    if fed == [] {
      CbcEncNothing(c, iv, []);
    }
  }

  lemma OpenBehind(c: BlockCipher, iv: Block, fed: bytes)
    ensures var x, y := fed[..Sent(|fed|)], fed[Sent(|fed|)..];
            var m := Open(c, NextChain(iv, x), y);
            && (Open(c, iv, fed) == if m.Some? then Some(CbcDec(c, iv, x) + m.value) else None)
            && (y == [] <==> fed == [])
            && (y == [] ==> m == Some([]))
  {
    hide *;
    var x, y := fed[..Sent(|fed|)], fed[Sent(|fed|)..];
    Rejoin(fed, Sent(|fed|));
    SentWhole(|fed|);
    OpenCases(c, iv, fed);
    OpenCases(c, NextChain(iv, x), y);
    if fed == [] {
      CbcDecNothing(c, iv, x);
    } else if |fed| % 16 == 0 {
      CbcDecAppend(c, iv, x, y);
      UnpadBehind(CbcDec(c, iv, x), CbcDec(c, NextChain(iv, x), y));
    }
  }

  lemma SealNothing(c: BlockCipher, iv: Block)
    ensures Seal(c, iv, []) == []
  {
  }

  lemma SentWhole(total: nat)
    ensures (total - Sent(total)) % 16 == 0 <==> total % 16 == 0
    ensures total > 0 ==> Sent(total) < total
  {
    SentLess(total);
    hide Sent;
    SameRemainder(total - Sent(total), Sent(total) / 16);
  }

  lemma SentLess(total: nat)
    ensures total > 0 ==> Sent(total) < total
  {
    hide Held;
  }

  lemma OpenCases(c: BlockCipher, iv: Block, text: bytes)
    ensures text == [] ==> Open(c, iv, text) == Some([])
    ensures |text| % 16 != 0 ==> Open(c, iv, text) == None
    ensures text != [] && |text| % 16 == 0 ==> Open(c, iv, text) == Unpad(CbcDec(c, iv, text))
  {
    hide CbcDec, Unpad;
  }

  // ---------------------------------------------------------------- whole runs

  /** Feeds the chunks to a cipher that is at the start of a run. */
  method SealRun(k: CbcCipher, chunks: seq<bytes>, out: GrowableBuf)
    requires k.Sound() && k.iv != out && k.good && k.Encrypting() && k.fed == [] && k.emitted == []
    requires forall x :: x in chunks ==> WithinLimits(|x|, BLOCK_SIZE)
    modifies k`chain, k`overflow, k`padding, k`good, k`fed, k`emitted, out
    ensures k.Sound() && k.iv.contents == old(k.iv.contents)
    ensures out.contents == old(out.contents) + Seal(k.cipher, k.iv.contents, Concat(chunks))
  {
    hide Seal, Sealing;
    var i := 0;
    AppendNothing(out.contents, []);
    while i < |chunks|
      invariant 0 <= i <= |chunks|
      invariant k.Sound() && k.iv.contents == old(k.iv.contents) && k.good && k.Encrypting()
      invariant k.fed == Concat(chunks[..i]) && out.contents == old(out.contents) + k.emitted
    {
      ConcatSplit(chunks, i);
      ghost var emitted := k.emitted;
      var _, released := k.Encrypt(chunks[i], out);
      Assoc(old(out.contents), emitted, released);
      i := i + 1;
    }
    assert chunks[..i] == chunks;
    ghost var emitted := k.emitted;
    var _, released := k.FinalizeEncryption(out);
    Assoc(old(out.contents), emitted, released);
  }

  /** Every message, under every split, comes out as CBC of the padded whole. */
  method SealChunks(c: BlockCipher, iv: Block, chunks: seq<bytes>) returns (r: bytes)
    requires forall x :: x in chunks ==> WithinLimits(|x|, BLOCK_SIZE)
    ensures r == Seal(c, iv, Concat(chunks)) && SealsAs(c, iv, Concat(chunks), r)
  {
    hide Seal, SealsAs;
    SealExactly(c, iv, Concat(chunks), Seal(c, iv, Concat(chunks)));
    var k := new CbcCipher(c, iv);
    var out := new GrowableBuf();
    SealRun(k, chunks, out);
    AppendNothing(Seal(c, iv, Concat(chunks)), []);
    r := out.contents;
  }

  /** Feeds the chunks to a cipher that is at the start of a run. */
  method OpenRun(k: CbcCipher, chunks: seq<bytes>, out: GrowableBuf) returns (ok: bool)
    requires k.Sound() && k.iv != out && k.good && k.Decrypting() && k.fed == [] && k.emitted == []
    requires forall x :: x in chunks ==> WithinLimits(|x|, BLOCK_SIZE)
    modifies k`chain, k`overflow, k`padding, k`good, k`fed, k`emitted, out
    ensures k.Sound() && k.iv.contents == old(k.iv.contents)
    ensures var m := Open(k.cipher, k.iv.contents, Concat(chunks));
            ok == m.Some? && (ok ==> out.contents == old(out.contents) + m.value)
  {
    hide Open, Opening;
    var i := 0;
    AppendNothing(out.contents, []);
    while i < |chunks|
      invariant 0 <= i <= |chunks|
      invariant k.Sound() && k.iv.contents == old(k.iv.contents) && k.good && k.Decrypting()
      invariant k.fed == Concat(chunks[..i]) && out.contents == old(out.contents) + k.emitted
    {
      ConcatSplit(chunks, i);
      ghost var emitted := k.emitted;
      var _, released := k.Decrypt(chunks[i], out);
      Assoc(old(out.contents), emitted, released);
      i := i + 1;
    }
    assert chunks[..i] == chunks;
    ghost var emitted := k.emitted;
    var status, released := k.FinalizeDecryption(out);
    Assoc(old(out.contents), emitted, released);
    ok := status == Success;
  }

  /** Every ciphertext, under every split, opens as the whole does. */
  method OpenChunks(c: BlockCipher, iv: Block, chunks: seq<bytes>) returns (r: Option<bytes>)
    requires forall x :: x in chunks ==> WithinLimits(|x|, BLOCK_SIZE)
    ensures r == Open(c, iv, Concat(chunks))
    ensures forall m :: r == Some(m) <==> OpensAs(c, iv, Concat(chunks), m)
  {
    hide Open, OpensAs;
    OpenExactlyAll(c, iv, Concat(chunks));
    var k := new CbcCipher(c, iv);
    var out := new GrowableBuf();
    var ok := OpenRun(k, chunks, out);
    if !ok {
      return None;
    }
    AppendNothing(Open(c, iv, Concat(chunks)).value, []);
    r := Some(out.contents);
  }

  /** Any calls at all, in any order and mixture: the stored IV stays. */
  method AnyCalls(k: CbcCipher, requests: seq<CipherLifecycle.Request>, out: GrowableBuf)
    requires k.Sound() && k.iv != out
    modifies k`chain, k`overflow, k`padding, k`good, k`fed, k`emitted, k.workingIv, out
    ensures k.Sound() && k.iv.contents == old(k.iv.contents)
  {
    for i := 0 to |requests|
      invariant k.Sound() && k.iv.contents == old(k.iv.contents)
    {
      match requests[i] {
        case Encrypt(input) => var _, _ := k.Encrypt(input, out);
        case Decrypt(input) => var _, _ := k.Decrypt(input, out);
        case FinalizeEncryption => var _, _ := k.FinalizeEncryption(out);
        case FinalizeDecryption => var _, _ := k.FinalizeDecryption(out);
        case Reset => k.Reset();
      }
    }
  }

  /** After any calls and a reset, a run gives what a new cipher would give. */
  method SealAfterReset(c: BlockCipher, iv: Block, requests: seq<CipherLifecycle.Request>, chunks: seq<bytes>)
    returns (r: bytes)
    requires forall x :: x in chunks ==> WithinLimits(|x|, BLOCK_SIZE)
    ensures r == Seal(c, iv, Concat(chunks))
  {
    hide Seal;
    var k := new CbcCipher(c, iv);
    var scrap := new GrowableBuf();
    var out := new GrowableBuf();
    AnyCalls(k, requests, scrap);
    k.Reset();
    SealRun(k, chunks, out);
    AppendNothing(Seal(c, iv, Concat(chunks)), []);
    r := out.contents;
  }

  method OpenAfterReset(c: BlockCipher, iv: Block, requests: seq<CipherLifecycle.Request>, chunks: seq<bytes>)
    returns (r: Option<bytes>)
    requires forall x :: x in chunks ==> WithinLimits(|x|, BLOCK_SIZE)
    ensures r == Open(c, iv, Concat(chunks))
  {
    hide Open;
    var k := new CbcCipher(c, iv);
    var scrap := new GrowableBuf();
    var out := new GrowableBuf();
    AnyCalls(k, requests, scrap);
    k.Reset();
    var ok := OpenRun(k, chunks, out);
    if !ok {
      return None;
    }
    AppendNothing(Open(c, iv, Concat(chunks)).value, []);
    r := Some(out.contents);
  }

  /** Decrypting under any split undoes encrypting under any split, also for the
      empty message. */
  method RoundTrip(c: BlockCipher, iv: Block, chunks: seq<bytes>, split: bytes -> seq<bytes>) returns (r: Option<bytes>)
    requires c.Permutation()
    requires (forall x :: x in chunks ==> WithinLimits(|x|, BLOCK_SIZE)) && Splits(split)
    ensures r == Some(Concat(chunks))
  {
    hide Seal, Open;
    var text := SealChunks(c, iv, chunks);
    r := OpenChunks(c, iv, split(text));
    OpenOfSeal(c, iv, Concat(chunks));
  }
}
