/** Bytes, exclusive-or, big-endian integers, byte sequences and the bounded
    byte buffer that the rest of the model is written in. */
module Bytes {

  datatype Option<+T> = None | Some(value: T)

  type byte = x: int | 0 <= x < 256
  type bytes = seq<byte>

  // ---------------------------------------------------------------- xor

  function Pow2(k: nat): (p: nat)
    ensures p > 0
  {
    if k == 0 then 1 else 2 * Pow2(k - 1)
  }

  /** Bitwise exclusive-or of two k-bit numbers. */
  function XorBits(a: nat, b: nat, k: nat): (r: nat)
    requires a < Pow2(k) && b < Pow2(k)
    ensures r < Pow2(k)
  {
    if k == 0 then 0 else (a + b) % 2 + 2 * XorBits(a / 2, b / 2, k - 1)
  }

  lemma {:induction false} XorBitsTwice(a: nat, b: nat, k: nat)
    requires a < Pow2(k) && b < Pow2(k)
    ensures XorBits(XorBits(a, b, k), b, k) == a
  {
    if k != 0 {
      var low, r := (a + b) % 2, XorBits(a / 2, b / 2, k - 1);
      var x := XorBits(a, b, k);
      HalfAndLowBit(low, r);
      XorBitsTwice(a / 2, b / 2, k - 1);
      LowBit(a, b, x);
    }
  }

  lemma HalfAndLowBit(low: nat, r: nat)
    requires low < 2
    ensures (low + 2 * r) / 2 == r && (low + 2 * r) % 2 == low
  {
  }

  lemma LowBit(a: nat, b: nat, x: nat)
    requires x % 2 == (a + b) % 2
    ensures (x + b) % 2 == a % 2
  {
  }

  lemma {:induction false} XorBitsZero(a: nat, k: nat)
    requires 0 < Pow2(k) && a < Pow2(k)
    ensures XorBits(a, 0, k) == a
  {
    if k != 0 {
      XorBitsZero(a / 2, k - 1);
    }
  }

  lemma Pow2Of8()
    ensures Pow2(8) == 256
  {
    assert Pow2(4) == 16;
    assert Pow2(6) == 64;
  }

  function Xor(a: byte, b: byte): byte {
    Pow2Of8();
    XorBits(a, b, 8)
  }

  /** Exclusive-or is its own inverse and has 0 as its unit. */
  lemma XorLaws(a: byte, b: byte)
    ensures Xor(Xor(a, b), b) == a
    ensures Xor(a, 0) == a
  {
    Pow2Of8();
    XorBitsTwice(a, b, 8);
    XorBitsZero(a, 8);
  }

  /** Bit j of a number. */
  function Bit(x: nat, j: nat): nat {
    x / Pow2(j) % 2
  }

  /** x has a one exactly where one of a and b has, bit by bit. */
  predicate IsXor(x: byte, a: byte, b: byte) {
    && x % 2 == (a % 2 + b % 2) % 2
    && x / 2 % 2 == (a / 2 % 2 + b / 2 % 2) % 2
    && x / 4 % 2 == (a / 4 % 2 + b / 4 % 2) % 2
    && x / 8 % 2 == (a / 8 % 2 + b / 8 % 2) % 2
    && x / 16 % 2 == (a / 16 % 2 + b / 16 % 2) % 2
    && x / 32 % 2 == (a / 32 % 2 + b / 32 % 2) % 2
    && x / 64 % 2 == (a / 64 % 2 + b / 64 % 2) % 2
    && x / 128 % 2 == (a / 128 % 2 + b / 128 % 2) % 2
  }

  lemma MultipleIsLarge(d: int, m: int)
    requires d > 0
    ensures m == 0 || d * m >= d || d * m <= -d
  {
    if m >= 1 {
      assert d * (m - 1) >= 0;
    } else if m <= -1 {
      assert d * (m + 1) <= 0;
    }
  }

  lemma QuotientIs(n: nat, d: nat, q: nat, r: nat)
    requires r < d && n == d * q + r
    ensures n / d == q
  {
    var k := n / d;
    var u := n - d * k;
    MultipleIsLarge(d, q - k);
    assert d * (q - k) == d * q - d * k == u - r;
  }

  lemma TwoQuotients(n: nat, d: nat, e: nat, q: nat, r: nat, s: nat)
    requires r < d && s < e && n == d * (e * q + s) + r
    ensures n == (d * e) * q + (d * s + r) && d * s + r < d * e
  {
    assert d * (e * q + s) == (d * e) * q + d * s;
    assert d * (s + 1) <= d * e;
  }

  lemma DivideTwice(n: nat, d: nat, e: nat)
    requires d > 0 && e > 0
    ensures d * e > 0 && n / d / e == n / (d * e)
  {
    var m := n / d;
    var q := m / e;
    TwoQuotients(n, d, e, q, n % d, m % e);
    QuotientIs(n, d * e, q, d * (m % e) + n % d);
  }

  lemma BitOfHalf(x: nat, j: nat)
    requires j > 0
    ensures Bit(x, j) == Bit(x / 2, j - 1)
  {
    DivideTwice(x, 2, Pow2(j - 1));
  }

  lemma LowestBit(x: nat)
    ensures Bit(x, 0) == x % 2
  {
  }

  lemma XorBitsHalf(a: nat, b: nat, k: nat)
    requires k > 0 && a < Pow2(k) && b < Pow2(k)
    ensures a / 2 < Pow2(k - 1) && b / 2 < Pow2(k - 1)
    ensures XorBits(a, b, k) / 2 == XorBits(a / 2, b / 2, k - 1) && XorBits(a, b, k) % 2 == (a + b) % 2
  {
    HalfAndLowBit((a + b) % 2, XorBits(a / 2, b / 2, k - 1));
  }

  lemma {:induction false} XorBitsBit(a: nat, b: nat, k: nat, j: nat)
    requires a < Pow2(k) && b < Pow2(k) && j < k
    ensures Bit(XorBits(a, b, k), j) == (Bit(a, j) + Bit(b, j)) % 2
    decreases k
  {
    hide *;
    XorBitsHalf(a, b, k);
    if j == 0 {
      LowestBit(a);
      LowestBit(b);
      LowestBit(XorBits(a, b, k));
    } else {
      XorBitsBit(a / 2, b / 2, k - 1, j - 1);
      BitOfHalf(a, j);
      BitOfHalf(b, j);
      BitOfHalf(XorBits(a, b, k), j);
    }
  }

  lemma HalfBelow(x: nat, k: nat)
    requires k > 0 && x < Pow2(k)
    ensures x / 2 < Pow2(k - 1)
  {
  }

  lemma NothingBelowOne()
    ensures Pow2(0) == 1
  {
  }

  lemma {:induction false} BitsDetermine(x: nat, y: nat, k: nat)
    requires x < Pow2(k) && y < Pow2(k) && forall j: nat :: j < k ==> Bit(x, j) == Bit(y, j)
    ensures x == y
  {
    hide *;
    if k == 0 {
      NothingBelowOne();
    } else {
      HalfBelow(x, k);
      HalfBelow(y, k);
      forall j: nat | j < k - 1
        ensures Bit(x / 2, j) == Bit(y / 2, j)
      {
        BitOfHalf(x, j + 1);
        BitOfHalf(y, j + 1);
      }
      BitsDetermine(x / 2, y / 2, k - 1);
      LowestBit(x);
      LowestBit(y);
      assert Bit(x, 0) == Bit(y, 0);
    }
  }

  lemma BitsOfByte(x: byte)
    ensures Bit(x, 0) == x % 2 && Bit(x, 1) == x / 2 % 2 && Bit(x, 2) == x / 4 % 2 && Bit(x, 3) == x / 8 % 2
    ensures Bit(x, 4) == x / 16 % 2 && Bit(x, 5) == x / 32 % 2 && Bit(x, 6) == x / 64 % 2 && Bit(x, 7) == x / 128 % 2
  {
    assert Pow2(2) == 4;
    assert Pow2(4) == 16;
    assert Pow2(6) == 64;
  }

  predicate XorAt(x: nat, a: nat, b: nat, j: nat) {
    Bit(x, j) == (Bit(a, j) + Bit(b, j)) % 2
  }

  lemma EightBits(x: byte, a: byte, b: byte)
    ensures IsXor(x, a, b) <==>
            (&& XorAt(x, a, b, 0) && XorAt(x, a, b, 1) && XorAt(x, a, b, 2) && XorAt(x, a, b, 3)
             && XorAt(x, a, b, 4) && XorAt(x, a, b, 5) && XorAt(x, a, b, 6) && XorAt(x, a, b, 7))
  {
    hide Bit;
    BitsOfByte(x);
    BitsOfByte(a);
    BitsOfByte(b);
  }

  lemma XorMeansBits(x: byte, a: byte, b: byte)
    ensures IsXor(x, a, b) <==> forall j: nat :: j < 8 ==> XorAt(x, a, b, j)
  {
    hide *;
    EightBits(x, a, b);
  }

  lemma XorAtBit(a: byte, b: byte, j: nat)
    requires j < 8
    ensures XorAt(Xor(a, b), a, b, j)
  {
    Pow2Of8();
    XorBitsBit(a, b, 8, j);
    hide Bit, XorBits;
  }

  lemma SameBit(x: byte, y: byte, a: byte, b: byte, j: nat)
    requires XorAt(x, a, b, j) && XorAt(y, a, b, j)
    ensures Bit(x, j) == Bit(y, j)
  {
    hide Bit;
  }

  /** Xor is the exclusive-or of the bits ... */
  lemma XorIsBitwise(a: byte, b: byte)
    ensures IsXor(Xor(a, b), a, b)
  {
    hide *;
    forall j: nat | j < 8
      ensures XorAt(Xor(a, b), a, b, j)
    {
      XorAtBit(a, b, j);
    }
    XorMeansBits(Xor(a, b), a, b);
  }

  /** ... and no other byte is. */
  lemma XorIsUnique(x: byte, y: byte, a: byte, b: byte)
    requires IsXor(x, a, b) && IsXor(y, a, b)
    ensures x == y
  {
    hide *;
    Pow2Of8();
    XorMeansBits(x, a, b);
    XorMeansBits(y, a, b);
    forall j: nat | j < 8
      ensures Bit(x, j) == Bit(y, j)
    {
      SameBit(x, y, a, b, j);
    }
    BitsDetermine(x, y, 8);
  }

  /** Bytewise exclusive-or, up to the length of the shorter operand. */
  function XorBytes(a: bytes, b: bytes): (r: bytes)
    ensures |r| == if |a| <= |b| then |a| else |b|
  {
    seq(if |a| <= |b| then |a| else |b|, i requires 0 <= i < |a| && i < |b| => Xor(a[i], b[i]))
  }

  /** Byte by byte and bit by bit, up to the length of the shorter operand. */
  lemma XorBytesIs(a: bytes, b: bytes)
    ensures |XorBytes(a, b)| <= |a| && |XorBytes(a, b)| <= |b|
    ensures |XorBytes(a, b)| == |a| || |XorBytes(a, b)| == |b|
    ensures forall i :: 0 <= i < |XorBytes(a, b)| ==> IsXor(XorBytes(a, b)[i], a[i], b[i])
  {
    hide IsXor, Xor;
    forall i | 0 <= i < |XorBytes(a, b)|
      ensures IsXor(XorBytes(a, b)[i], a[i], b[i])
    {
      XorIsBitwise(a[i], b[i]);
    }
  }

  lemma XorBytesTwice(a: bytes, b: bytes)
    requires |a| <= |b|
    ensures XorBytes(XorBytes(a, b), b) == a
  {
    forall i | 0 <= i < |a|
      ensures XorBytes(XorBytes(a, b), b)[i] == a[i]
    {
      XorLaws(a[i], b[i]);
    }
  }

  // ---------------------------------------------------------------- big-endian integers

  function Pow256(w: nat): (p: nat)
    ensures p > 0
  {
    if w == 0 then 1 else 256 * Pow256(w - 1)
  }

  /** The low w bytes of n, most significant first. */
  function BigEndian(n: nat, w: nat): (s: bytes)
    ensures |s| == w
  {
    if w == 0 then [] else BigEndian(n / 256, w - 1) + [n % 256]
  }

  /** The unsigned integer whose big-endian octets are s. */
  function FromBigEndian(s: bytes): nat {
    if s == [] then 0 else FromBigEndian(s[..|s| - 1]) * 256 + s[|s| - 1]
  }

  lemma QuotientBelow(n: nat, p: nat)
    requires n < 256 * p
    ensures n / 256 < p
  {
  }

  /** The octets of a number by division: the first has the highest weight. */
  lemma {:induction false} BigEndianDigit(n: nat, w: nat, i: nat)
    requires i < w
    ensures BigEndian(n, w)[i] == n / Pow256(w - 1 - i) % 256
    decreases w
  {
    if i < w - 1 {
      BigEndianDigit(n / 256, w - 1, i);
      DivideTwice(n, 256, Pow256(w - 2 - i));
    }
  }

  lemma BigEndianTwo(n: nat)
    ensures BigEndian(n, 2) == [n / 0x100 % 256, n % 256]
  {
    BigEndianDigit(n, 2, 0);
    BigEndianDigit(n, 2, 1);
    assert Pow256(0) == 1 && Pow256(1) == 0x100;
  }

  lemma BigEndianFour(n: nat)
    ensures BigEndian(n, 4) == [n / 0x100_0000 % 256, n / 0x1_0000 % 256, n / 0x100 % 256, n % 256]
  {
    BigEndianDigit(n, 4, 0);
    BigEndianDigit(n, 4, 1);
    BigEndianDigit(n, 4, 2);
    BigEndianDigit(n, 4, 3);
    assert Pow256(0) == 1 && Pow256(1) == 0x100 && Pow256(2) == 0x1_0000 && Pow256(3) == 0x100_0000;
  }

  /** The weights on the way back. */
  lemma FromBigEndianTwo(s: bytes)
    requires |s| == 2
    ensures FromBigEndian(s) == 0x100 * (s[0] as int) + s[1]
  {
    assert s[..1][..0] == [];
    assert FromBigEndian(s[..1]) == s[0];
  }

  lemma FromBigEndianFour(s: bytes)
    requires |s| == 4
    ensures FromBigEndian(s) == 0x100_0000 * (s[0] as int) + 0x1_0000 * (s[1] as int) + 0x100 * (s[2] as int) + s[3]
  {
    FromBigEndianTwo(s[..2]);
    assert s[..3][..2] == s[..2];
  }

  lemma {:induction false} FromToBigEndian(n: nat, w: nat)
    requires n < Pow256(w)
    ensures FromBigEndian(BigEndian(n, w)) == n
  {
    if w != 0 {
      QuotientBelow(n, Pow256(w - 1));
      FromToBigEndian(n / 256, w - 1);
      assert BigEndian(n, w)[..w - 1] == BigEndian(n / 256, w - 1);
    }
  }

  lemma {:induction false} ToFromBigEndian(s: bytes)
    ensures FromBigEndian(s) < Pow256(|s|)
    ensures BigEndian(FromBigEndian(s), |s|) == s
  {
    if s != [] {
      ToFromBigEndian(s[..|s| - 1]);
    }
  }

  /** Leading zero octets carry no value. */
  lemma {:induction false} LeadingZero(s: bytes)
    ensures FromBigEndian([0] + s) == FromBigEndian(s)
  {
    if s == [] {
      assert ([0] + s)[..0] == [];
    } else {
      assert ([0] + s)[..|s|] == [0] + s[..|s| - 1];
      LeadingZero(s[..|s| - 1]);
    }
  }

  // ---------------------------------------------------------------- sequences

  function Repeat<T>(x: T, n: nat): (s: seq<T>)
    ensures |s| == n
    ensures forall i :: 0 <= i < n ==> s[i] == x
  {
    seq(n, _ => x)
  }

  lemma AppendNothing<T>(s: seq<T>, t: seq<T>)
    requires |t| == 0
    ensures s + t == s && t + s == s
  {
  }

  lemma Assoc<T>(x: seq<T>, y: seq<T>, z: seq<T>)
    ensures x + y + z == x + (y + z)
  {
  }

  lemma RepeatMore<T>(x: T, n: nat)
    ensures Repeat(x, 1 + n) == [x] + Repeat(x, n)
  {
  }

  lemma Halves<T>(s: seq<T>, t: seq<T>)
    ensures (s + t)[..|s|] == s && (s + t)[|s|..] == t
  {
  }

  lemma Rejoin<T>(s: seq<T>, i: nat)
    requires i <= |s|
    ensures s[..i] + s[i..] == s
  {
  }

  /** Concatenation of a sequence of chunks. */
  function Concat(chunks: seq<bytes>): bytes {
    if chunks == [] then [] else chunks[0] + Concat(chunks[1..])
  }

  lemma {:induction false} ConcatAppend(xs: seq<bytes>, ys: seq<bytes>)
    ensures Concat(xs + ys) == Concat(xs) + Concat(ys)
  {
    if xs == [] {
      assert xs + ys == ys;
    } else {
      assert (xs + ys)[1..] == xs[1..] + ys;
      ConcatAppend(xs[1..], ys);
    }
  }

  lemma ConcatOne(xs: seq<bytes>, y: bytes)
    ensures Concat(xs + [y]) == Concat(xs) + y
  {
    ConcatAppend(xs, [y]);
    assert Concat([y]) == y + Concat([]);
  }

  lemma SameRemainder(h: nat, q: nat)
    ensures (h + 16 * q) % 16 == h % 16
  {
    var k, r := h / 16, h % 16;
    assert h + 16 * q == 16 * (k + q) + r;
  }

  // ---------------------------------------------------------------- buffers

  /** An append-only view of an aws_byte_buf of fixed capacity: `contents` are
      its first `len` bytes. */
  class ByteBuf {
    var contents: bytes
    const capacity: nat

    ghost predicate Valid()
      reads this
    {
      |contents| <= capacity
    }

    constructor (capacity: nat)
      ensures Valid() && contents == [] && this.capacity == capacity
    {
      this.capacity := capacity;
      contents := [];
    }

    /** aws_byte_buf_write: all of s or none of it. */
    method Write(s: bytes) returns (ok: bool)
      requires Valid()
      modifies this
      ensures Valid()
      ensures ok <==> |old(contents)| + |s| <= capacity
      ensures contents == if ok then old(contents) + s else old(contents)
    {
      ok := |s| <= capacity - |contents|;
      if ok {
        contents := contents + s;
      }
    }
  }

  /** An append-only view of an aws_byte_buf that has an allocator. */
  class GrowableBuf {
    var contents: bytes

    constructor ()
      ensures contents == []
    {
      contents := [];
    }

    /** aws_byte_buf_secure_zero: nothing of the contents remains. */
    method SecureZero()
      modifies this
      ensures contents == []
    {
      contents := [];
    }

    method Append(s: bytes)
      modifies this
      ensures contents == old(contents) + s
    {
      contents := contents + s;
    }
  }
}
