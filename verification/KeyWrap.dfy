/** The key wrap cipher of source/unix/openssl_aes.c: input is gathered in a
    working buffer and wrapped or unwrapped in place when the caller finalizes. */
module KeyWrap {
  import opened Bytes
  import opened BlockCiphers
  import opened KeyWrapRegisters
  import opened KeyWrapSpec

  datatype Status = Success | InvalidState | ShortBuffer | SignatureValidationFailed

  const MIN_CEK_LENGTH_BYTES: nat := 16
  const KEYWRAP_BLOCK_SIZE: nat := 8
  const INTEGRITY_VALUE: byte := 0xA6

  /** aws_byte_buf with its memory: bytes past `len` exist and may be written. */
  class RawBuf {
    var data: array<byte>
    var len: nat
    const growable: bool

    ghost predicate Valid()
      reads this
    {
      len <= data.Length
    }

    ghost function Contents(): bytes
      requires Valid()
      reads this, data
    {
      data[..len]
    }

    constructor (capacity: nat, growable: bool)
      ensures Valid() && fresh(data) && Contents() == []
      ensures data.Length == capacity && this.growable == growable
    {
      data := new byte[capacity](_ => 0);
      len := 0;
      this.growable := growable;
    }

    ghost predicate Fits(extra: nat)
      reads this
    {
      growable || len + extra <= data.Length
    }

    /** aws_symmetric_cipher_try_ensure_sufficient_buffer_space: only a buffer
        with an allocator can be moved to larger memory. */
    method EnsureSpace(extra: nat) returns (ok: bool)
      requires Valid()
      modifies this
      ensures Valid() && len == old(len) && Contents() == old(Contents())
      ensures ok == old(Fits(extra))
      ensures ok ==> len + extra <= data.Length
      ensures data == old(data) || fresh(data)
    {
      if data.Length - len < extra {
        if !growable {
          return false;
        }
        var bigger := new byte[len + extra](_ => 0);
        forall i | 0 <= i < len {
          bigger[i] := data[i];
        }
        data := bigger;
      }
      return true;
    }
  }

  // ---------------------------------------------------------------- memory

  /** s with x written over it at position `at`. */
  function Put(s: bytes, at: nat, x: bytes): (s': bytes)
    requires at + |x| <= |s|
    ensures |s'| == |s|
  {
    s[..at] + x + s[at + |x|..]
  }

  lemma {:induction false} JoinAt(r: seq<Half>, i: nat, x: Half)
    requires i < |r|
    ensures Join(r)[8 * i..8 * i + 8] == r[i]
    ensures Join(r[i := x]) == Put(Join(r), 8 * i, x)
  {
    var s, s1 := Join(r), Join(r[1..]);
    if i == 0 {
      assert r[0 := x][1..] == r[1..];
    } else {
      JoinAt(r[1..], i - 1, x);
      assert s[8 * i..8 * i + 8] == s1[8 * (i - 1)..8 * (i - 1) + 8];
      assert r[i := x][1..] == r[1..][i - 1 := x];
    }
  }

  /** Reading and writing register i of registers laid out between pre and post. */
  lemma Register(s: bytes, pre: bytes, r: seq<Half>, post: bytes, i: nat, x: Half)
    requires s == pre + Join(r) + post && i < |r|
    ensures s[|pre| + 8 * i..|pre| + 8 * i + 8] == r[i]
    ensures Put(s, |pre| + 8 * i, x) == pre + Join(r[i := x]) + post
  {
    JoinAt(r, i, x);
    hide Join;
    var m := Join(r);
    assert s[|pre| + 8 * i..|pre| + 8 * i + 8] == m[8 * i..8 * i + 8];
    assert Put(s, |pre| + 8 * i, x) == pre + Put(m, 8 * i, x) + post;
  }

  /** memcpy into a buffer. */
  method Copy(buf: array<byte>, at: nat, x: bytes)
    requires at + |x| <= buf.Length
    modifies buf
    ensures buf[..] == Put(old(buf[..]), at, x)
  {
    forall i | 0 <= i < |x| {
      buf[at + i] := x[i];
    }
  }

  lemma PutParts(s: bytes, a: nat, x: Half, r: nat, y: Half)
    requires a + 8 <= r && r + 8 <= |s|
    ensures var s' := Put(Put(s, a, x), r, y);
            && s'[a..a + 8] == x && s'[r..r + 8] == y
            && s'[..a] == s[..a] && s'[a + 8..r] == s[a + 8..r] && s'[r + 8..] == s[r + 8..]
  {
  }

  /** The body of the inner wrapping loop, with A at `a` and R[i] at `r`. */
  method EncryptInPlace(c: BlockCipher, buf: array<byte>, a: nat, r: nat, t: nat)
    requires a + 8 <= r && r + 8 <= buf.Length
    modifies buf
    ensures var s := old(buf[..]);
            var (x, y) := WrapOne(c, CutMix, s[a..a + 8], s[r..r + 8], t);
            buf[..] == Put(Put(s, a, x), r, y)
    ensures var s, s' := old(buf[..]), buf[..];
            && c.enc(s[a..a + 8] + s[r..r + 8]) == XorBytes(s'[a..a + 8], BigEndian(t % 256, 8)) + s'[r..r + 8]
            && s'[..a] == s[..a] && s'[a + 8..r] == s[a + 8..r] && s'[r + 8..] == s[r + 8..]
  {
    var temp: Block := buf[a..a + 8] + buf[r..r + 8];
    var b := c.enc(temp);
    var x := b[..8];
    x := x[7 := Xor(x[7], t % 256)];
    Copy(buf, a, x);
    Copy(buf, r, b[8..]);
    ghost var s := old(buf[..]);
    WrapOneEquation(c, true, s[a..a + 8], s[r..r + 8], t, x, b[8..]);
    PutParts(s, a, x, r, b[8..]);
  }

  /** The body of the inner unwrapping loop, with R[i] at `r`. */
  method DecryptInPlace(c: BlockCipher, buf: array<byte>, a: Half, r: nat, t: nat) returns (x: Half)
    requires r + 8 <= buf.Length
    modifies buf
    ensures var s := old(buf[..]);
            var (x', y) := UnwrapOne(c, a, s[r..r + 8], t);
            x == x' && buf[..] == Put(s, r, y)
    ensures var s, s' := old(buf[..]), buf[..];
            && c.dec(XorBytes(a, BigEndian(t % 256, 8)) + s[r..r + 8]) == x + s'[r..r + 8]
            && s'[..r] == s[..r] && s'[r + 8..] == s[r + 8..]
  {
    var temp: Block := a[7 := Xor(a[7], t % 256)] + buf[r..r + 8];
    var b := c.dec(temp);
    x := b[..8];
    Copy(buf, r, b[8..]);
    UnwrapOneEquation(c, a, old(buf[r..r + 8]), t, x, b[8..]);
  }

  /** The final loop of unwrapping. */
  method CheckIntegrity(a: Half) returns (intact: bool)
    ensures intact <==> a == INITIAL_VALUE
  {
    var i := 0;
    while i < KEYWRAP_BLOCK_SIZE
      invariant 0 <= i <= 8
      invariant forall k :: 0 <= k < i ==> a[k] == INTEGRITY_VALUE
    {
      if a[i] != INTEGRITY_VALUE {
        return false;
      }
      i := i + 1;
    }
    return true;
  }

  // ---------------------------------------------------------------- the cipher

  class KeyWrapCipher {
    const cipher: BlockCipher
    var working: bytes
    var good: bool

    constructor (cipher: BlockCipher)
      ensures this.cipher == cipher && working == [] && good
    {
      this.cipher := cipher;
      working := [];
      good := true;
    }

    /** Both encrypt and decrypt: gather the input, write nothing. */
    method Update(input: bytes)
      modifies this`working
      ensures working == old(working) + input
    {
      working := working + input;
    }

    method Reset()
      modifies this
      ensures working == [] && good
    {
      working := [];
      good := true;
    }

    method FinalizeEncryption(out: RawBuf) returns (status: Status)
      requires out.Valid()
      modifies this`good, out, out.data
      ensures out.Valid() && (out.data == old(out.data) || fresh(out.data))
      ensures |working| < 16 <==> status == InvalidState
      ensures |working| >= 16 && !old(out.Fits(|working| + 8)) <==> status == ShortBuffer
      ensures status == Success || status == InvalidState || status == ShortBuffer
      ensures good == (old(good) && status != InvalidState)
      ensures out.Contents() == old(out.Contents()) + if status == Success then Wrap(cipher, working) else []
    {
      if |working| < MIN_CEK_LENGTH_BYTES {
        good := false;
        return InvalidState;
      }
      var start := out.len;
      var ok := out.EnsureSpace(|working| + KEYWRAP_BLOCK_SIZE);
      if !ok {
        return ShortBuffer;
      }
      WrapInto(cipher, out, working);
      assert out.Contents() == old(out.Contents()) + Wrap(cipher, working);
      return Success;
    }

    method FinalizeDecryption(out: RawBuf) returns (status: Status)
      requires out.Valid()
      modifies this, out, out.data
      ensures out.Valid() && (out.data == old(out.data) || fresh(out.data))
      ensures |old(working)| < 24 <==> status == InvalidState
      ensures |old(working)| >= 24 ==>
                (status == ShortBuffer <==> !old(out.Fits(|working| - 8)))
      ensures |old(working)| >= 24 && old(out.Fits(|working| - 8)) ==>
                (status == Success <==> Unwrap(cipher, old(working)).0 == INITIAL_VALUE)
      ensures status == Success || status == InvalidState || status == ShortBuffer || status == SignatureValidationFailed
      ensures good == (old(good) && (status == Success || status == ShortBuffer))
      ensures working == if status == InvalidState || status == ShortBuffer then old(working)
                         else Unwrap(cipher, old(working)).0 + old(working)[8..]
      ensures out.Contents()
           == old(out.Contents()) + if status == Success then Unwrap(cipher, old(working)).1 else []
    {
      if |working| < MIN_CEK_LENGTH_BYTES + KEYWRAP_BLOCK_SIZE {
        good := false;
        return InvalidState;
      }
      var start := out.len;
      var required := |working| - KEYWRAP_BLOCK_SIZE;
      var ok := out.EnsureSpace(required);
      if !ok {
        return ShortBuffer;
      }
      var a := UnwrapInto(cipher, out, working);
      working := a + working[8..];
      var intact := CheckIntegrity(a);
      if !intact {
        good := false;
        return SignatureValidationFailed;
      }
      out.len := out.len + required;
      assert out.Contents() == old(out.Contents()) + Unwrap(cipher, old(working)).1;
      return Success;
    }
  }

  /** Reading and writing A in front of the other registers. */
  lemma IntegrityRegister(s: bytes, before: bytes, a: Half, m: bytes, post: bytes, x: Half)
    requires s == before + (a + m) + post
    ensures s[|before|..|before| + 8] == a && s == (before + a) + m + post
    ensures Put(s, |before|, x) == (before + x) + m + post
  {
    assert s == (before + a) + m + post;
    assert Put(s, |before|, x) == before + x + (m + post);
  }

  /** One turn of the inner wrapping loop on a buffer that holds st behind
      `before` makes it hold the next state, and nothing else changes. */
  lemma WrapTurn(c: BlockCipher, s: bytes, before: bytes, st: State, post: bytes, i: nat, t: nat)
    requires s == before + Store(st) + post && i < |st.r|
    ensures var a, r := |before|, |before| + 8 + 8 * i;
            var (x, y) := WrapOne(c, CutMix, s[a..a + 8], s[r..r + 8], t);
            Put(Put(s, a, x), r, y) == before + Store(IndexStep(WrapStep(c, CutMix), st, i, t)) + post
  {
    var a, r := |before|, |before| + 8 + 8 * i;
    var (x, y) := WrapOne(c, CutMix, st.a, st.r[i], t);
    assert IndexStep(WrapStep(c, CutMix), st, i, t) == Registers(x, st.r[i := y]);
    hide WrapOne, WrapStep, CutMix, Join, Put;
    IntegrityRegister(s, before, st.a, Join(st.r), post, x);
    Register(s, before + st.a, st.r, post, i, y);
    Register(Put(s, a, x), before + x, st.r, post, i, y);
    assert (before + x) + Join(st.r[i := y]) + post == before + (x + Join(st.r[i := y])) + post;
  }

  /** The wrapping loops over registers laid out from `start`. */
  method WrapLoops(c: BlockCipher, buf: array<byte>, start: nat, n: nat,
                   ghost before: bytes, ghost st0: State, ghost post: bytes)
    requires |before| == start && |st0.r| == n && buf[..] == before + Store(st0) + post
    modifies buf
    ensures buf[..] == before + Store(WrapAll(c, st0)) + post
  {
    hide Store, Join, Put, WrapOne, WrapStep, CutMix, IndexStep, XorBytes, BigEndian;
    ghost var f := WrapStep(c, CutMix);
    var j := 0;
    while j <= 5
      invariant 0 <= j <= 6
      invariant buf[..] == before + Store(Index(f, st0, j, 0)) + post
    {
      var r := start + KEYWRAP_BLOCK_SIZE;
      var i := 1;
      while i <= n
        invariant 1 <= i <= n + 1 && r == start + 8 * i
        invariant buf[..] == before + Store(Index(f, st0, j, i - 1)) + post
      {
        WrapTurn(c, buf[..], before, Index(f, st0, j, i - 1), post, i - 1, n * j + i);
        EncryptInPlace(c, buf, start, r, n * j + i);
        r := r + KEYWRAP_BLOCK_SIZE;
        i := i + 1;
      }
      j := j + 1;
    }
  }

  lemma WrapLayout(before: bytes, p: bytes, rest: bytes)
    ensures before + INITIAL_VALUE + p + rest
         == before + Store(Registers(INITIAL_VALUE, Split(p))) + (p[8 * (|p| / 8)..] + rest)
  {
    var k := 8 * (|p| / 8);
    JoinSplit(p[..k]);
    SplitIgnoresTail(p);
    Rejoin(p, k);
    hide *;
    assert before + INITIAL_VALUE + (p[..k] + p[k..]) + rest
        == before + (INITIAL_VALUE + p[..k]) + (p[k..] + rest);
  }

  lemma WrapDone(c: BlockCipher, before: bytes, p: bytes, rest: bytes)
    requires |p| >= 8
    ensures before + Store(WrapAll(c, Registers(INITIAL_VALUE, Split(p)))) + (p[8 * (|p| / 8)..] + rest)
         == before + Wrap(c, p) + rest
  {
    var w, tail := Store(WrapAll(c, Registers(INITIAL_VALUE, Split(p)))), p[8 * (|p| / 8)..];
    assert Wrap(c, p) == w + tail;
    hide *;
    assert before + w + (tail + rest) == before + (w + tail) + rest;
  }

  lemma PutTwo(s: bytes, at: nat, x: bytes, y: bytes)
    requires at + |x| + |y| <= |s|
    ensures Put(Put(s, at, x), at + |x|, y) == s[..at] + x + y + s[at + |x| + |y|..]
  {
  }

  /** Lays out A and the text behind out's contents and runs the wrapping loops. */
  method WrapInto(c: BlockCipher, out: RawBuf, p: bytes)
    requires out.Valid() && |p| >= 16 && out.len + |p| + 8 <= out.data.Length
    modifies out`len, out.data
    ensures out.len == old(out.len) + |p| + 8
    ensures out.data[..] == old(out.data[..out.len]) + Wrap(c, p) + old(out.data[out.len + |p| + 8..])
  {
    var buf, start := out.data, out.len;
    Copy(buf, start, Repeat(INTEGRITY_VALUE, 8));
    Copy(buf, start + 8, p);
    out.len := start + |p| + 8;
    ghost var before, rest := old(buf[..start]), old(buf[start + |p| + 8..]);
    ghost var st0, post := Registers(INITIAL_VALUE, Split(p)), p[8 * (|p| / 8)..] + rest;
    hide *;
    PutTwo(old(buf[..]), start, INITIAL_VALUE, p);
    WrapLayout(before, p, rest);
    WrapLoops(c, buf, start, |p| / 8, before, st0, post);
    WrapDone(c, before, p, rest);
  }

  /** One turn of the inner unwrapping loop, A being kept outside the buffer. */
  lemma UnwrapTurn(c: BlockCipher, s: bytes, pre: bytes, st: State, post: bytes, i: nat, t: nat)
    requires s == pre + Join(st.r) + post && i < |st.r|
    ensures var r := |pre| + 8 * i;
            var (x, y) := UnwrapOne(c, st.a, s[r..r + 8], t);
            var st' := IndexStep(UnwrapStep(c), st, i, t);
            st'.a == x && Put(s, r, y) == pre + Join(st'.r) + post
  {
    var (x, y) := UnwrapOne(c, st.a, st.r[i], t);
    assert IndexStep(UnwrapStep(c), st, i, t) == Registers(x, st.r[i := y]);
    hide UnwrapOne, UnwrapStep, CutMix, Join;
    Register(s, pre, st.r, post, i, y);
  }

  /** The unwrapping loops over registers that end at `end`. */
  method UnwrapLoops(c: BlockCipher, buf: array<byte>, end: nat, n: nat, a0: Half,
                     ghost pre: bytes, ghost st0: State, ghost post: bytes) returns (a: Half)
    requires a0 == st0.a && |st0.r| == n && |pre| + 8 * n == end && buf[..] == pre + Join(st0.r) + post
    modifies buf
    ensures a == UnwrapAll(c, st0).a
    ensures buf[..] == pre + Join(UnwrapAll(c, st0).r) + post
  {
    hide Join, Put, UnwrapOne, UnwrapStep, CutMix, IndexStep, XorBytes, BigEndian;
    a := a0;
    ghost var g, st := UnwrapStep(c), st0;
    var j := 5;
    while j >= 0
      invariant -1 <= j <= 5
      invariant |st.r| == n && a == st.a && buf[..] == pre + Join(st.r) + post
      invariant UnwrapAll(c, st0) == if j >= 0 then Undo(g, st, j, n) else st
    {
      var r: int := end - KEYWRAP_BLOCK_SIZE;
      var i := n;
      while i >= 1
        invariant 0 <= i <= n && r == |pre| + 8 * (i - 1)
        invariant |st.r| == n && a == st.a && buf[..] == pre + Join(st.r) + post
        invariant UnwrapAll(c, st0) == Undo(g, st, j, i)
      {
        UnwrapTurn(c, buf[..], pre, st, post, i - 1, n * j + i);
        st := IndexStep(g, st, i - 1, n * j + i);
        a := DecryptInPlace(c, buf, a, r, n * j + i);
        r := r - KEYWRAP_BLOCK_SIZE;
        i := i - 1;
      }
      j := j - 1;
    }
  }

  lemma UnwrapLayout(before: bytes, body: bytes, rest: bytes)
    ensures var h := |body| % 8;
            before + body + rest == (before + body[..h]) + Join(Split(body[h..])) + rest
  {
    var h := |body| % 8;
    JoinSplit(body[h..]);
    Rejoin(body, h);
    hide *;
    assert before + (body[..h] + body[h..]) + rest == (before + body[..h]) + body[h..] + rest;
  }

  lemma UnwrapDone(c: BlockCipher, before: bytes, w: bytes, rest: bytes)
    requires |w| >= 16
    ensures var h := |w[8..]| % 8;
            var st := UnwrapAll(c, Registers(w[..8], Split(w[8..][h..])));
            && st.a == Unwrap(c, w).0
            && (before + w[8..][..h]) + Join(st.r) + rest == before + Unwrap(c, w).1 + rest
  {
    var h := |w[8..]| % 8;
    var m := Join(UnwrapAll(c, Registers(w[..8], Split(w[8..][h..]))).r);
    assert Unwrap(c, w).1 == w[8..][..h] + m;
    hide *;
    assert (before + w[8..][..h]) + m + rest == before + (w[8..][..h] + m) + rest;
  }

  /** Copies the text behind out's contents and runs the unwrapping loops; the
      integrity register starts in the input and is returned. */
  method UnwrapInto(c: BlockCipher, out: RawBuf, w: bytes) returns (a: Half)
    requires out.Valid() && |w| >= 24 && out.len + |w| - 8 <= out.data.Length
    modifies out.data
    ensures a == Unwrap(c, w).0
    ensures out.data[..] == old(out.data[..out.len]) + Unwrap(c, w).1 + old(out.data[out.len + |w| - 8..])
  {
    var buf, start, required := out.data, out.len, |w| - 8;
    Copy(buf, start, w[8..]);
    var n, head := required / 8, required % 8;
    ghost var st0 := Registers(w[..8], Split(w[8..][head..]));
    ghost var before, rest := old(buf[..start]), old(buf[start + required..]);
    ghost var pre := before + w[8..][..head];
    assert buf[..] == before + w[8..] + rest;
    UnwrapLayout(before, w[8..], rest);
    hide *;
    a := UnwrapLoops(c, buf, start + required, n, w[..8], pre, st0, rest);
    UnwrapDone(c, before, w, rest);
  }

  // ---------------------------------------------------------------- whole runs

  method Feed(k: KeyWrapCipher, chunks: seq<bytes>)
    modifies k`working
    ensures k.working == old(k.working) + Concat(chunks)
  {
    var i := 0;
    while i < |chunks|
      invariant 0 <= i <= |chunks|
      invariant k.working == old(k.working) + Concat(chunks[..i])
    {
      k.Update(chunks[i]);
      assert chunks[..i + 1] == chunks[..i] + [chunks[i]];
      ConcatOne(chunks[..i], chunks[i]);
      i := i + 1;
    }
    assert chunks[..i] == chunks;
  }

  /** A fresh cipher fed in any chunks wraps their concatenation, and up to 42
      blocks that is the RFC's ciphertext. */
  method WrapChunks(c: BlockCipher, chunks: seq<bytes>) returns (w: Option<bytes>)
    ensures w.Some? <==> |Concat(chunks)| >= 16
    ensures w.Some? ==> w.value == Wrap(c, Concat(chunks))
    ensures var p := Concat(chunks);
            16 <= |p| <= 8 * 42 && |p| % 8 == 0 ==> w == Some(RfcWrap(c, p))
    ensures var p := Concat(chunks);
            |p| >= 16 ==>
              forall tr :: IsTrace(c, p, true, tr) ==> w == Some(Store(tr[6 * (|p| / 8)]) + p[8 * (|p| / 8)..])
  {
    hide Wrap, RfcWrap, Store, IsShift;
    var k := new KeyWrapCipher(c);
    Feed(k, chunks);
    ghost var p := Concat(chunks);
    assert k.working == p;
    var out := new RawBuf(0, true);
    var status := k.FinalizeEncryption(out);
    if status != Success {
      return None;
    }
    w := Some(out.data[..out.len]);
    AppendNothing(Wrap(c, p), []);
    assert out.Contents() == [] + Wrap(c, p);
    forall tr | IsTrace(c, p, true, tr)
      ensures w == Some(Store(tr[6 * (|p| / 8)]) + p[8 * (|p| / 8)..])
    {
      WrapsAreTraces(c, p, tr);
    }
    if |p| <= 8 * 42 && |p| % 8 == 0 {
      WrapIsRfcWrap(c, p);
    }
  }

  /** A fresh cipher fed in any chunks accepts exactly the wrapped texts and
      returns what was wrapped. */
  method UnwrapChunks(c: BlockCipher, chunks: seq<bytes>) returns (p: Option<bytes>)
    requires c.Permutation()
    ensures var w := Concat(chunks);
            && (p.Some? <==> exists q: bytes :: IsWrapFromEndOf(c, q, w))
            && (forall q: bytes :: IsWrapFromEndOf(c, q, w) ==> p == Some(q))
            && (|w| % 8 == 0 ==> forall q: bytes :: IsWrapOf(c, q, w) <==> IsWrapFromEndOf(c, q, w))
  {
    hide Unwrap, Wrap, WrapFromEnd;
    var k := new KeyWrapCipher(c);
    Feed(k, chunks);
    ghost var w := Concat(chunks);
    assert k.working == w;
    var out := new RawBuf(0, true);
    var status := k.FinalizeDecryption(out);
    p := if status == Success then Some(out.data[..out.len]) else None;
    if status == Success {
      AppendNothing(Unwrap(c, w).1, []);
      assert out.Contents() == [] + Unwrap(c, w).1;
    }
    if |w| >= 24 {
      UnwrapAcceptsExactlyWraps(c, w);
    }
  }
}
