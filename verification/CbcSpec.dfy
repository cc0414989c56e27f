/** Cipher block chaining (section 6.2 of NIST SP 800-38A) with the padding of
    section 6.3 of RFC 5652, and how both behave when a message is cut. */
module CbcSpec {
  import opened Bytes
  import opened BlockCiphers

  function CbcEnc(c: BlockCipher, chain: Block, msg: bytes): (r: bytes)
    requires |msg| % 16 == 0
    ensures |r| == |msg|
    decreases |msg|
  {
    if msg == [] then [] else
      var b := c.enc(XorBytes(msg[..16], chain));
      b + CbcEnc(c, b, msg[16..])
  }

  function CbcDec(c: BlockCipher, chain: Block, text: bytes): (r: bytes)
    requires |text| % 16 == 0
    ensures |r| == |text|
    decreases |text|
  {
    if text == [] then []
    else XorBytes(c.dec(text[..16]), chain) + CbcDec(c, text[..16], text[16..])
  }

  /** The chaining value behind some ciphertext. */
  function NextChain(chain: Block, text: bytes): Block
    requires |text| % 16 == 0
  {
    if text == [] then chain else text[|text| - 16..]
  }

  lemma NextChainStep(chain: Block, b: Block, text: bytes)
    requires |text| % 16 == 0
    ensures NextChain(chain, b + text) == NextChain(b, text)
  {
    if text == [] {
      assert b + text == b && b[|b| - 16..] == b;
    } else {
      LastOfBoth(b, text, 16);
    }
  }

  lemma LastOfBoth(x: bytes, y: bytes, k: nat)
    requires k <= |y|
    ensures (x + y)[|x + y| - k..] == y[|y| - k..]
  {
  }

  lemma NextChainAppend(chain: Block, x: bytes, y: bytes)
    requires |x| % 16 == 0 && |y| % 16 == 0
    ensures NextChain(chain, x + y) == NextChain(NextChain(chain, x), y)
  {
    if y == [] {
      assert x + y == x;
    } else {
      assert (x + y)[|x + y| - 16..] == y[|y| - 16..];
    }
  }

  lemma CbcEncFirst(c: BlockCipher, chain: Block, msg: bytes)
    requires |msg| % 16 == 0 && msg != []
    ensures var b := c.enc(XorBytes(msg[..16], chain));
            CbcEnc(c, chain, msg) == b + CbcEnc(c, b, msg[16..])
  {
  }

  lemma CbcDecFirst(c: BlockCipher, chain: Block, text: bytes)
    requires |text| % 16 == 0 && text != []
    ensures CbcDec(c, chain, text) == XorBytes(c.dec(text[..16]), chain) + CbcDec(c, text[..16], text[16..])
  {
  }

  lemma {:induction false} CbcEncAppend(c: BlockCipher, chain: Block, x: bytes, y: bytes)
    requires |x| % 16 == 0 && |y| % 16 == 0
    ensures var e := CbcEnc(c, chain, x);
            CbcEnc(c, chain, x + y) == e + CbcEnc(c, NextChain(chain, e), y)
    decreases |x|
  {
    hide CbcEnc, NextChain, XorBytes;
    if x == [] {
      assert x + y == y;
      CbcEncNothing(c, chain, y);
    } else {
      CbcEncFirst(c, chain, x);
      CbcEncFirst(c, chain, x + y);
      assert (x + y)[..16] == x[..16];
      assert (x + y)[16..] == x[16..] + y;
      var b := c.enc(XorBytes(x[..16], chain));
      var e := CbcEnc(c, b, x[16..]);
      CbcEncAppend(c, b, x[16..], y);
      NextChainStep(chain, b, e);
      Assoc(b, e, CbcEnc(c, NextChain(b, e), y));
    }
  }

  lemma CbcEncNothing(c: BlockCipher, chain: Block, y: bytes)
    requires |y| % 16 == 0
    ensures CbcEnc(c, chain, []) == [] && NextChain(chain, []) == chain
    ensures [] + CbcEnc(c, chain, y) == CbcEnc(c, chain, y)
  {
  }

  lemma {:induction false} CbcDecAppend(c: BlockCipher, chain: Block, x: bytes, y: bytes)
    requires |x| % 16 == 0 && |y| % 16 == 0
    ensures CbcDec(c, chain, x + y) == CbcDec(c, chain, x) + CbcDec(c, NextChain(chain, x), y)
    decreases |x|
  {
    hide CbcDec, NextChain, XorBytes;
    if x == [] {
      assert x + y == y;
      CbcDecNothing(c, chain, y);
    } else {
      CbcDecFirst(c, chain, x);
      CbcDecFirst(c, chain, x + y);
      assert (x + y)[..16] == x[..16];
      assert (x + y)[16..] == x[16..] + y;
      CbcDecAppend(c, x[..16], x[16..], y);
      NextChainStep(chain, x[..16], x[16..]);
      Rejoin(x, 16);
      Assoc(XorBytes(c.dec(x[..16]), chain), CbcDec(c, x[..16], x[16..]), CbcDec(c, NextChain(chain, x), y));
    }
  }

  lemma CbcDecNothing(c: BlockCipher, chain: Block, y: bytes)
    requires |y| % 16 == 0
    ensures CbcDec(c, chain, []) == [] && NextChain(chain, []) == chain
    ensures [] + CbcDec(c, chain, y) == CbcDec(c, chain, y)
  {
  }

  lemma {:induction false} CbcDecOfEnc(c: BlockCipher, chain: Block, msg: bytes)
    requires c.Permutation() && |msg| % 16 == 0
    ensures CbcDec(c, chain, CbcEnc(c, chain, msg)) == msg
    decreases |msg|
  {
    if msg == [] {
      CbcEncNothing(c, chain, []);
      CbcDecNothing(c, chain, []);
    } else {
      hide CbcEnc, CbcDec, XorBytes;
      var x: Block := XorBytes(msg[..16], chain);
      var b := c.enc(x);
      var rest := CbcEnc(c, b, msg[16..]);
      CbcEncFirst(c, chain, msg);
      CbcDecFirst(c, chain, b + rest);
      Halves(b, rest);
      assert c.dec(c.enc(x)) == x;
      XorBytesTwice(msg[..16], chain);
      CbcDecOfEnc(c, b, msg[16..]);
      Rejoin(msg, 16);
    }
  }

  /** Block k of some data. */
  function BlockAt(s: bytes, k: nat): Block
    requires 16 * k + 16 <= |s|
  {
    s[16 * k..16 * k + 16]
  }

  /** What block k is chained with: the IV or the ciphertext block before it. */
  function ChainedWith(iv: Block, text: bytes, k: nat): Block
    requires 16 * k <= |text|
  {
    if k == 0 then iv else BlockAt(text, k - 1)
  }

  /** Section 6.2 of NIST SP 800-38A, block by block. */
  ghost predicate IsCbc(c: BlockCipher, iv: Block, msg: bytes, text: bytes) {
    && |msg| % 16 == 0 && |text| == |msg|
    && forall k :: 0 <= k < |msg| / 16 ==> IsCbcBlock(c, iv, msg, text, k)
  }

  ghost predicate IsCbcBlock(c: BlockCipher, iv: Block, msg: bytes, text: bytes, k: nat)
    requires |text| == |msg| && 16 * k + 16 <= |msg|
  {
    BlockAt(text, k) == c.enc(XorBytes(BlockAt(msg, k), ChainedWith(iv, text, k)))
  }

  ghost predicate IsCbcDec(c: BlockCipher, iv: Block, text: bytes, msg: bytes) {
    && |text| % 16 == 0 && |msg| == |text|
    && forall k :: 0 <= k < |text| / 16 ==>
         BlockAt(msg, k) == XorBytes(c.dec(BlockAt(text, k)), ChainedWith(iv, text, k))
  }

  lemma BlockBehind(x: Block, s: bytes, k: nat)
    requires 16 * k + 16 <= |s|
    ensures BlockAt(x + s, k + 1) == BlockAt(s, k) && BlockAt(x + s, 0) == x
  {
  }

  lemma ChainBehind(iv: Block, b: Block, text: bytes, k: nat)
    requires 16 * k <= |text|
    ensures ChainedWith(iv, b + text, k + 1) == ChainedWith(b, text, k)
  {
    if k > 0 {
      BlockBehind(b, text, k - 1);
    } else {
      assert (b + text)[0..16] == b;
    }
  }

  lemma CbcAt(c: BlockCipher, iv: Block, msg: bytes, text: bytes, k: nat)
    requires IsCbc(c, iv, msg, text) && k < |msg| / 16
    ensures |text| == |msg| && 16 * k + 16 <= |msg|
    ensures BlockAt(text, k) == c.enc(XorBytes(BlockAt(msg, k), ChainedWith(iv, text, k)))
  {
    hide BlockAt, ChainedWith, XorBytes;
    assert IsCbcBlock(c, iv, msg, text, k);
  }

  lemma CbcLength(c: BlockCipher, iv: Block, msg: bytes, text: bytes)
    requires IsCbc(c, iv, msg, text)
    ensures |text| == |msg| && |msg| % 16 == 0
  {
    hide BlockAt, ChainedWith, XorBytes;
  }

  lemma FirstBlock(iv: Block, b: Block, o: bytes)
    ensures BlockAt(b + o, 0) == b && ChainedWith(iv, b + o, 0) == iv
  {
  }

  /** A block in front of a CBC text: the blocks behind it stay CBC. */
  lemma CbcInFront(c: BlockCipher, iv: Block, x: Block, rest: bytes, b: Block, o: bytes, k: nat)
    requires IsCbc(c, b, rest, o) && k < |rest| / 16
    ensures |o| == |rest| && 16 * k + 16 <= |rest|
    ensures BlockAt(b + o, k + 1) == c.enc(XorBytes(BlockAt(x + rest, k + 1), ChainedWith(iv, b + o, k + 1)))
  {
    hide *;
    CbcAt(c, b, rest, o, k);
    BlockBehind(b, o, k);
    BlockBehind(x, rest, k);
    ChainBehind(iv, b, o, k);
  }

  lemma FirstIsCbc(c: BlockCipher, iv: Block, x: Block, rest: bytes, b: Block, o: bytes)
    requires b == c.enc(XorBytes(x, iv)) && |o| == |rest|
    ensures IsCbcBlock(c, iv, x + rest, b + o, 0)
  {
    FirstBlock(iv, b, o);
    FirstBlock(iv, x, rest);
    hide BlockAt, ChainedWith, XorBytes;
  }

  lemma NextIsCbc(c: BlockCipher, iv: Block, x: Block, rest: bytes, b: Block, o: bytes, k: nat)
    requires IsCbc(c, b, rest, o) && k < |rest| / 16
    ensures |o| == |rest| && 16 * k + 16 <= |rest| && IsCbcBlock(c, iv, x + rest, b + o, k + 1)
  {
    CbcInFront(c, iv, x, rest, b, o, k);
    hide BlockAt, ChainedWith, XorBytes, IsCbc;
  }

  lemma CbcPrepend(c: BlockCipher, iv: Block, x: Block, rest: bytes, b: Block, o: bytes)
    requires b == c.enc(XorBytes(x, iv)) && IsCbc(c, b, rest, o)
    ensures IsCbc(c, iv, x + rest, b + o)
  {
    hide IsCbcBlock, XorBytes;
    CbcLength(c, b, rest, o);
    FirstIsCbc(c, iv, x, rest, b, o);
    forall k | 0 < k < |x + rest| / 16
      ensures IsCbcBlock(c, iv, x + rest, b + o, k)
    {
      NextIsCbc(c, iv, x, rest, b, o, k - 1);
    }
  }

  lemma CbcOfNothing(c: BlockCipher, iv: Block)
    ensures IsCbc(c, iv, [], []) && CbcEnc(c, iv, []) == []
  {
  }

  lemma {:induction false} CbcEncIsCbc(c: BlockCipher, iv: Block, msg: bytes)
    requires |msg| % 16 == 0
    ensures IsCbc(c, iv, msg, CbcEnc(c, iv, msg))
    decreases |msg|
  {
    hide *;
    if msg == [] {
      CbcOfNothing(c, iv);
    } else {
      var x, rest := msg[..16], msg[16..];
      var b := c.enc(XorBytes(x, iv));
      CbcEncFirst(c, iv, msg);
      CbcEncIsCbc(c, b, rest);
      Rejoin(msg, 16);
      CbcPrepend(c, iv, x, rest, b, CbcEnc(c, b, rest));
    }
  }

  lemma {:induction false} CbcDecIsCbcDec(c: BlockCipher, iv: Block, text: bytes)
    requires |text| % 16 == 0
    ensures IsCbcDec(c, iv, text, CbcDec(c, iv, text))
    decreases |text|
  {
    if text != [] {
      var b, rest := text[..16], text[16..];
      var x := XorBytes(c.dec(b), iv);
      var o := CbcDec(c, b, rest);
      CbcDecFirst(c, iv, text);
      CbcDecIsCbcDec(c, b, rest);
      Rejoin(text, 16);
      hide CbcDec, XorBytes;
      forall k | 0 <= k < |text| / 16
        ensures BlockAt(x + o, k) == XorBytes(c.dec(BlockAt(text, k)), ChainedWith(iv, text, k))
      {
        if k == 0 {
          assert BlockAt(x + o, 0) == x && BlockAt(text, 0) == b;
        } else {
          BlockBehind(x, o, k - 1);
          BlockBehind(b, rest, k - 1);
          ChainBehind(iv, b, rest, k - 1);
        }
      }
    }
  }

  /** The equations have one solution. */
  lemma {:induction false} SameBlocks(s: bytes, t: bytes)
    requires |s| == |t| && |s| % 16 == 0
    requires forall k :: 0 <= k < |s| / 16 ==> BlockAt(s, k) == BlockAt(t, k)
    ensures s == t
  {
    forall i | 0 <= i < |s|
      ensures s[i] == t[i]
    {
      var k, j := i / 16, i % 16;
      assert s[i] == BlockAt(s, k)[j] && t[i] == BlockAt(t, k)[j];
    }
  }

  lemma ChainedEqually(iv: Block, s: bytes, t: bytes, k: nat)
    requires |s| == |t| && 16 * k <= |s| && (k > 0 ==> BlockAt(s, k - 1) == BlockAt(t, k - 1))
    ensures ChainedWith(iv, s, k) == ChainedWith(iv, t, k)
  {
    hide BlockAt;
  }

  lemma {:induction false} CbcAgrees(c: BlockCipher, iv: Block, msg: bytes, s: bytes, t: bytes, k: nat)
    requires IsCbc(c, iv, msg, s) && IsCbc(c, iv, msg, t) && k < |msg| / 16
    ensures |s| == |t| == |msg| && 16 * k + 16 <= |msg| && BlockAt(s, k) == BlockAt(t, k)
  {
    hide *;
    CbcAt(c, iv, msg, s, k);
    CbcAt(c, iv, msg, t, k);
    if k > 0 {
      CbcAgrees(c, iv, msg, s, t, k - 1);
    }
    ChainedEqually(iv, s, t, k);
  }

  /** CbcEnc is the CBC of the standard and nothing else is. */
  lemma CbcEncExactly(c: BlockCipher, iv: Block, msg: bytes, text: bytes)
    requires |msg| % 16 == 0
    ensures text == CbcEnc(c, iv, msg) <==> IsCbc(c, iv, msg, text)
  {
    var e := CbcEnc(c, iv, msg);
    CbcEncIsCbc(c, iv, msg);
    hide CbcEnc;
    if IsCbc(c, iv, msg, text) {
      forall k | 0 <= k < |msg| / 16
        ensures BlockAt(text, k) == BlockAt(e, k)
      {
        CbcAgrees(c, iv, msg, text, e, k);
      }
      SameBlocks(text, e);
    }
  }

  // ---------------------------------------------------------------- padding

  /** Section 6.3 of RFC 5652: r is m and then as many bytes as are missing to the
      next multiple of 16, each of them that number. */
  ghost predicate IsPaddingOf(r: bytes, m: bytes) {
    && |r| % 16 == 0 && 1 <= |r| - |m| <= 16
    && r[..|m|] == m
    && forall i :: |m| <= i < |r| ==> r[i] == |r| - |m|
  }

  function PadLength(len: nat): (p: nat)
    ensures 1 <= p <= 16 && (len + p) % 16 == 0
  {
    16 - len % 16
  }

  function Pad(msg: bytes): (r: bytes)
    ensures |r| % 16 == 0 && |r| > 0
  {
    msg + Repeat(PadLength(|msg|), PadLength(|msg|))
  }

  /** The message under a correct padding. */
  function Unpad(r: bytes): Option<bytes> {
    if |r| == 0 || |r| % 16 != 0 then None
    else
      var p := r[|r| - 1];
      if 1 <= p <= 16 && r[|r| - p..] == Repeat(p, p) then Some(r[..|r| - p]) else None
  }

  lemma PadExactly(r: bytes, m: bytes)
    ensures r == Pad(m) <==> IsPaddingOf(r, m)
  {
    var p := PadLength(|m|);
    if IsPaddingOf(r, m) {
      PadLengthIs(|m|, |r| - |m|);
      assert r == r[..|m|] + r[|m|..];
      assert r[|m|..] == Repeat(p, p);
    }
  }

  lemma PadLengthIs(len: nat, p: nat)
    requires 1 <= p <= 16 && (len + p) % 16 == 0
    ensures p == PadLength(len)
  {
  }

  /** Exactly the correctly padded texts are unpadded, and to what was padded. */
  lemma UnpadExactly(r: bytes, m: bytes)
    ensures Unpad(r) == Some(m) <==> IsPaddingOf(r, m)
  {
    if Unpad(r) == Some(m) {
      var p := r[|r| - 1];
      assert m == r[..|r| - p];
      forall i | |m| <= i < |r|
        ensures r[i] == p
      {
        assert r[i] == r[|r| - p..][i - |m|];
      }
    }
    hide Pad, Unpad;
    if IsPaddingOf(r, m) {
      PadExactly(r, m);
      UnpadOfPad(m);
    }
  }

  lemma UnpadOfPad(msg: bytes)
    ensures Unpad(Pad(msg)) == Some(msg)
  {
    var p := PadLength(|msg|);
    Halves(msg, Repeat(p, p));
  }

  lemma PadBehind(x: bytes, y: bytes)
    requires |x| % 16 == 0
    ensures Pad(x + y) == x + Pad(y)
  {
    assert PadLength(|x + y|) == PadLength(|y|);
    Assoc(x, y, Repeat(PadLength(|y|), PadLength(|y|)));
  }

  lemma UnpadBehind(x: bytes, y: bytes)
    requires |x| % 16 == 0 && y != []
    ensures Unpad(x + y) == match Unpad(y) case None => None case Some(m) => Some(x + m)
  {
    if |y| % 16 == 0 {
      var p := y[|y| - 1];
      assert (x + y)[|x + y| - 1] == p;
      if 1 <= p <= 16 {
        assert (x + y)[|x + y| - p..] == y[|y| - p..];
        assert (x + y)[..|x + y| - p] == x + y[..|y| - p];
      }
    }
  }

  // ---------------------------------------------------------------- whole messages

  /** What a run emits for a message: nothing at all for the empty one. */
  function Seal(c: BlockCipher, iv: Block, msg: bytes): bytes {
    if msg == [] then [] else CbcEnc(c, iv, Pad(msg))
  }

  /** What a run makes of a ciphertext. */
  function Open(c: BlockCipher, iv: Block, text: bytes): Option<bytes> {
    if text == [] then Some([])
    else if |text| % 16 != 0 then None
    else Unpad(CbcDec(c, iv, text))
  }

  /** A message's ciphertext by the two standards. */
  ghost predicate SealsAs(c: BlockCipher, iv: Block, msg: bytes, text: bytes) {
    if msg == [] then text == [] else exists r :: IsPaddingOf(r, msg) && IsCbc(c, iv, r, text)
  }

  /** A ciphertext's message by the two standards. */
  ghost predicate OpensAs(c: BlockCipher, iv: Block, text: bytes, msg: bytes) {
    if text == [] then msg == [] else exists r :: IsCbcDec(c, iv, text, r) && IsPaddingOf(r, msg)
  }

  lemma SealExactly(c: BlockCipher, iv: Block, msg: bytes, text: bytes)
    ensures text == Seal(c, iv, msg) <==> SealsAs(c, iv, msg, text)
  {
    hide CbcEnc, Pad, IsPaddingOf, IsCbc;
    if msg != [] {
      PadExactly(Pad(msg), msg);
      CbcEncExactly(c, iv, Pad(msg), text);
      forall r | IsPaddingOf(r, msg)
        ensures r == Pad(msg)
      {
        PadExactly(r, msg);
      }
    }
  }

  lemma CbcDecUnique(c: BlockCipher, iv: Block, text: bytes, r: bytes)
    requires IsCbcDec(c, iv, text, r)
    ensures r == CbcDec(c, iv, text)
  {
    CbcDecIsCbcDec(c, iv, text);
    hide CbcDec;
    SameBlocks(r, CbcDec(c, iv, text));
  }

  lemma OpenExactly(c: BlockCipher, iv: Block, text: bytes, msg: bytes)
    ensures Open(c, iv, text) == Some(msg) <==> OpensAs(c, iv, text, msg)
  {
    hide CbcDec, Unpad, IsPaddingOf;
    if text != [] {
      if |text| % 16 == 0 {
        CbcDecIsCbcDec(c, iv, text);
        UnpadExactly(CbcDec(c, iv, text), msg);
      }
      forall r | IsCbcDec(c, iv, text, r)
        ensures |text| % 16 == 0 && r == CbcDec(c, iv, text)
      {
        CbcDecUnique(c, iv, text, r);
      }
    }
  }

  lemma OpenExactlyAll(c: BlockCipher, iv: Block, text: bytes)
    ensures forall msg :: Open(c, iv, text) == Some(msg) <==> OpensAs(c, iv, text, msg)
  {
    hide Open, OpensAs;
    forall msg
      ensures Open(c, iv, text) == Some(msg) <==> OpensAs(c, iv, text, msg)
    {
      OpenExactly(c, iv, text, msg);
    }
  }

  lemma OpenOfSeal(c: BlockCipher, iv: Block, msg: bytes)
    requires c.Permutation()
    ensures Open(c, iv, Seal(c, iv, msg)) == Some(msg)
  {
    hide CbcEnc, CbcDec, Unpad, Pad;
    if msg != [] {
      CbcDecOfEnc(c, iv, Pad(msg));
      UnpadOfPad(msg);
    }
  }
}
