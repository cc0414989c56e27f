/** AES key wrap on bytes: what section 2.2 of RFC 3394 prescribes, what the
    in-place loops compute, that unwrapping accepts exactly the wrapped texts,
    and the number of blocks up to which the two agree. */
module KeyWrapSpec {
  import opened Bytes
  import opened BlockCiphers
  import opened KeyWrapRegisters

  type Half = s: bytes | |s| == 8 witness Repeat(0, 8)

  /** The default initial value of section 2.2.3.1 of RFC 3394. */
  const INITIAL_VALUE: Half := Repeat(0xA6, 8)

  /** How the step number t is mixed into A. */
  type Mixer = (Half, nat) -> Half

  /** The RFC: A is combined with t as a 64-bit integer. */
  function RfcMix(a: Half, t: nat): Half {
    XorBytes(a, BigEndian(t, 8))
  }

  /** The code: t is cut to an unsigned char and combined with the last byte. */
  function CutMix(a: Half, t: nat): Half {
    a[7 := Xor(a[7], t % 256)]
  }

  /** A wrapping step: encrypt A | R, mix t into the first half. */
  function WrapOne(c: BlockCipher, mix: Mixer, a: Half, x: Half, t: nat): (Half, Half) {
    var b := c.enc(a + x);
    (mix(b[..8], t), b[8..])
  }

  /** An unwrapping step: mix t out of A, decrypt A | R. */
  function UnwrapOne(c: BlockCipher, a: Half, x: Half, t: nat): (Half, Half) {
    var b := c.dec(CutMix(a, t) + x);
    (b[..8], b[8..])
  }

  function WrapStep(c: BlockCipher, mix: Mixer): StepFn<Half, Half> {
    (a: Half, x: Half, t: nat) => WrapOne(c, mix, a, x, t)
  }

  function UnwrapStep(c: BlockCipher): StepFn<Half, Half> {
    (a: Half, x: Half, t: nat) => UnwrapOne(c, a, x, t)
  }

  lemma StepsAreInverse(c: BlockCipher)
    requires c.Permutation()
    ensures LeftInverse(UnwrapStep(c), WrapStep(c, CutMix))
    ensures LeftInverse(WrapStep(c, CutMix), UnwrapStep(c))
  {
    forall a: Half, x: Half, t: nat
      ensures var (b, y) := WrapStep(c, CutMix)(a, x, t); UnwrapStep(c)(b, y, t) == (a, x)
      ensures var (b, y) := UnwrapStep(c)(a, x, t); WrapStep(c, CutMix)(b, y, t) == (a, x)
    {
      UnwrapOneStep(c, a, x, t);
      WrapOneStep(c, a, x, t);
    }
  }

  lemma CutMixTwice(a: Half, t: nat)
    ensures CutMix(CutMix(a, t), t) == a
  {
    XorLaws(a[7], t % 256);
  }

  lemma UnwrapOneStep(c: BlockCipher, a: Half, x: Half, t: nat)
    requires c.Permutation()
    ensures var b := c.enc(a + x);
            c.dec(CutMix(CutMix(b[..8], t), t) + b[8..]) == a + x
  {
    var b := c.enc(a + x);
    CutMixTwice(b[..8], t);
    assert b[..8] + b[8..] == b;
    assert c.dec(c.enc(a + x)) == a + x;
  }

  lemma WrapOneStep(c: BlockCipher, a: Half, x: Half, t: nat)
    requires c.Permutation()
    ensures var b := c.dec(CutMix(a, t) + x);
            c.enc(b[..8] + b[8..]) == CutMix(a, t) + x && CutMix(CutMix(a, t), t) == a
  {
    var b := c.dec(CutMix(a, t) + x);
    CutMixTwice(a, t);
    assert b[..8] + b[8..] == b;
    assert c.enc(c.dec(CutMix(a, t) + x)) == CutMix(a, t) + x;
  }

  // ---------------------------------------------------------------- bytes and registers

  function Split(p: bytes): (r: seq<Half>)
    ensures |r| == |p| / 8
  {
    seq(|p| / 8, i requires 0 <= i < |p| / 8 => p[8 * i..8 * i + 8])
  }

  function Join(r: seq<Half>): (s: bytes)
    ensures |s| == 8 * |r|
  {
    if r == [] then [] else r[0] + Join(r[1..])
  }

  type State = Registers<Half, Half>

  lemma {:induction false} SplitJoin(r: seq<Half>)
    ensures Split(Join(r)) == r
  {
    if r != [] {
      SplitJoin(r[1..]);
      var s, s1 := Join(r), Join(r[1..]);
      forall i | 0 <= i < |r|
        ensures Split(s)[i] == r[i]
      {
        if i > 0 {
          assert Split(s1)[i - 1] == r[1..][i - 1];
          assert s[8 * i..8 * i + 8] == s1[8 * (i - 1)..8 * (i - 1) + 8];
        }
      }
    }
  }

  lemma {:induction false} JoinSplit(p: bytes)
    requires |p| % 8 == 0
    ensures Join(Split(p)) == p
  {
    if p != [] {
      JoinSplit(p[8..]);
      forall i | 0 <= i < |p| / 8 - 1
        ensures Split(p)[1..][i] == Split(p[8..])[i]
      {
        assert p[8 * (i + 1)..8 * (i + 1) + 8] == p[8..][8 * i..8 * i + 8];
      }
      assert Split(p)[1..] == Split(p[8..]);
      assert p == p[..8] + p[8..];
    }
  }

  // ---------------------------------------------------------------- the two formulations

  /** Section 2.2.1 of the RFC: 6n shift-register steps. */
  function ShiftAll(c: BlockCipher, mix: Mixer, st: State): (st': State)
    requires st.r != []
    ensures |st'.r| == |st.r|
  {
    Shift(WrapStep(c, mix), st, 6 * |st.r|)
  }

  /** Passes 0, ..., 5 of the in-place form. */
  function WrapAll(c: BlockCipher, st: State): (st': State)
    ensures |st'.r| == |st.r|
  {
    Index(WrapStep(c, CutMix), st, 5, |st.r|)
  }

  /** Passes 5, ..., 0 of the in-place form run backwards. */
  function UnwrapAll(c: BlockCipher, st: State): (st': State)
    ensures |st'.r| == |st.r|
  {
    Undo(UnwrapStep(c), st, 5, |st.r|)
  }

  lemma AllStepsAreInverse(c: BlockCipher, st: State)
    requires c.Permutation()
    ensures UnwrapAll(c, WrapAll(c, st)) == st
    ensures WrapAll(c, UnwrapAll(c, st)) == st
  {
    StepsAreInverse(c);
    UndoIndex(UnwrapStep(c), WrapStep(c, CutMix), st, 5, |st.r|);
    IndexUndo(UnwrapStep(c), WrapStep(c, CutMix), st, 5, |st.r|);
  }

  /** The in-place passes compute the RFC's shift registers, with t cut to a byte. */
  lemma WrapAllIsShiftAll(c: BlockCipher, st: State)
    requires st.r != []
    ensures WrapAll(c, st) == ShiftAll(c, CutMix, st)
  {
    var n := |st.r|;
    ShiftIsRotatedIndex(WrapStep(c, CutMix), st, 5, n, 6 * n);
    var x := WrapAll(c, st);
    AppendNothing(x.r, x.r[n..]);
    assert Rotate(x, n) == x;
  }

  function Store(st: State): (s: bytes)
    ensures |s| == 8 + 8 * |st.r|
  {
    st.a + Join(st.r)
  }

  /** The ciphertext C[0], ..., C[n] that the RFC assigns to p. */
  function RfcWrap(c: BlockCipher, p: bytes): bytes
    requires |p| >= 8
  {
    Store(ShiftAll(c, RfcMix, Registers(INITIAL_VALUE, Split(p))))
  }

  /** What the wrapping loops compute. Bytes past the last whole block are
      copied through. */
  function Wrap(c: BlockCipher, p: bytes): (w: bytes)
    requires |p| >= 8
    ensures |w| == |p| + 8
  {
    Store(WrapAll(c, Registers(INITIAL_VALUE, Split(p)))) + p[8 * (|p| / 8)..]
  }

  /** The integrity register and the text left by the unwrapping loops, which
      count blocks from the end: bytes before the first whole block stay. */
  function Unwrap(c: BlockCipher, w: bytes): (r: (Half, bytes))
    requires |w| >= 16
    ensures |r.1| == |w| - 8
  {
    var body := w[8..];
    var head := |body| % 8;
    var st := UnwrapAll(c, Registers(w[..8], Split(body[head..])));
    (st.a, body[..head] + Join(st.r))
  }

  lemma WrapAligned(c: BlockCipher, p: bytes)
    requires |p| >= 8 && |p| % 8 == 0
    ensures Wrap(c, p) == Store(WrapAll(c, Registers(INITIAL_VALUE, Split(p))))
  {
    AppendNothing(Store(WrapAll(c, Registers(INITIAL_VALUE, Split(p)))), p[8 * (|p| / 8)..]);
  }

  /** The text wrapped over blocks counted from the end, as unwrapping counts
      them; the same as Wrap for texts of whole blocks. */
  function WrapFromEnd(c: BlockCipher, p: bytes): (w: bytes)
    requires |p| >= 8
    ensures |w| == |p| + 8
  {
    var head := |p| % 8;
    var st := WrapAll(c, Registers(INITIAL_VALUE, Split(p[head..])));
    st.a + (p[..head] + Join(st.r))
  }

  lemma WrapFromEndAligned(c: BlockCipher, p: bytes)
    requires |p| >= 8 && |p| % 8 == 0
    ensures WrapFromEnd(c, p) == Wrap(c, p)
  {
    WrapAligned(c, p);
    var st := WrapAll(c, Registers(INITIAL_VALUE, Split(p)));
    hide WrapAll, Split, Join, Wrap;
    assert p[0..] == p;
    AppendNothing(Join(st.r), p[..0]);
  }

  /** What unwrapping makes of given parts. */
  lemma UnwrapParts(c: BlockCipher, a: Half, head: bytes, r: seq<Half>)
    requires |head| < 8 && r != []
    ensures var st := UnwrapAll(c, Registers(a, r)); Unwrap(c, a + (head + Join(r))) == (st.a, head + Join(st.r))
  {
    SplitJoin(r);
    var w := a + (head + Join(r));
    hide UnwrapAll, Split, Join;
    assert w[..8] == a && w[8..] == head + Join(r) && |w[8..]| % 8 == |head|;
    Halves(head, Join(r));
  }

  lemma UnwrapOfWrapFromEnd(c: BlockCipher, p: bytes)
    requires c.Permutation() && |p| >= 16
    ensures Unwrap(c, WrapFromEnd(c, p)) == (INITIAL_VALUE, p)
  {
    var head := |p| % 8;
    var st := Registers(INITIAL_VALUE, Split(p[head..]));
    assert WrapFromEnd(c, p) == WrapAll(c, st).a + (p[..head] + Join(WrapAll(c, st).r));
    hide *;
    AllStepsAreInverse(c, st);
    UnwrapParts(c, WrapAll(c, st).a, p[..head], WrapAll(c, st).r);
    JoinSplit(p[head..]);
    Rejoin(p, head);
  }

  lemma WrapFromEndOfUnwrap(c: BlockCipher, w: bytes)
    requires c.Permutation() && |w| >= 24
    requires Unwrap(c, w).0 == INITIAL_VALUE
    ensures WrapFromEnd(c, Unwrap(c, w).1) == w
  {
    var body, head := w[8..], |w[8..]| % 8;
    var st: State := Registers(w[..8], Split(body[head..]));
    var q, u := Unwrap(c, w).1, UnwrapAll(c, st);
    assert q == body[..head] + Join(u.r) && u.a == INITIAL_VALUE;
    Halves(body[..head], Join(u.r));
    SplitJoin(u.r);
    AllStepsAreInverse(c, st);
    JoinSplit(body[head..]);
    Rejoin(body, head);
    Rejoin(w, 8);
    assert |q| % 8 == head && WrapAll(c, Registers(INITIAL_VALUE, Split(q[head..]))) == st;
    hide WrapAll, UnwrapAll, Split, Join, Unwrap;
  }

  /** Unwrapping a wrapped text gives the text back with an intact register for
      texts of whole blocks; for any other, exactly when counting blocks from
      the end makes no difference. */
  lemma UnwrapOfWrap(c: BlockCipher, p: bytes)
    requires c.Permutation() && |p| >= 16
    ensures Unwrap(c, Wrap(c, p)) == (INITIAL_VALUE, p) <==> Wrap(c, p) == WrapFromEnd(c, p)
    ensures |p| % 8 == 0 ==> Unwrap(c, Wrap(c, p)) == (INITIAL_VALUE, p)
  {
    hide *;
    UnwrapOfWrapFromEnd(c, p);
    if Unwrap(c, Wrap(c, p)) == (INITIAL_VALUE, p) {
      WrapFromEndOfUnwrap(c, Wrap(c, p));
    }
    if |p| % 8 == 0 {
      WrapFromEndAligned(c, p);
    }
  }

  lemma WrapOfUnwrap(c: BlockCipher, w: bytes)
    requires c.Permutation() && |w| >= 24
    requires Unwrap(c, w).0 == INITIAL_VALUE
    ensures var p := Unwrap(c, w).1; WrapFromEnd(c, p) == w && (|w| % 8 == 0 ==> Wrap(c, p) == w)
  {
    hide *;
    WrapFromEndOfUnwrap(c, w);
    if |w| % 8 == 0 {
      WrapFromEndAligned(c, Unwrap(c, w).1);
    }
  }

  ghost predicate IsWrapOf(c: BlockCipher, p: bytes, w: bytes) {
    |p| >= 16 && w == Wrap(c, p)
  }

  ghost predicate IsWrapFromEndOf(c: BlockCipher, p: bytes, w: bytes) {
    |p| >= 16 && w == WrapFromEnd(c, p)
  }

  lemma SameWraps(c: BlockCipher, w: bytes)
    requires |w| % 8 == 0
    ensures forall p: bytes :: IsWrapOf(c, p, w) <==> IsWrapFromEndOf(c, p, w)
  {
    hide Wrap, WrapFromEnd;
    forall p: bytes | |p| >= 16 && |p| == |w| - 8
      ensures Wrap(c, p) == WrapFromEnd(c, p)
    {
      WrapFromEndAligned(c, p);
    }
  }

  /** The check passes on exactly the texts wrapped from the end, and yields what
      was wrapped; for inputs of whole blocks those are the wrapped texts. */
  lemma UnwrapAcceptsExactlyWraps(c: BlockCipher, w: bytes)
    requires c.Permutation() && |w| >= 24
    ensures Unwrap(c, w).0 == INITIAL_VALUE <==> exists p: bytes :: IsWrapFromEndOf(c, p, w)
    ensures forall p: bytes :: IsWrapFromEndOf(c, p, w) ==> Unwrap(c, w) == (INITIAL_VALUE, p)
    ensures |w| % 8 == 0 ==> forall p: bytes :: IsWrapOf(c, p, w) <==> IsWrapFromEndOf(c, p, w)
  {
    hide Unwrap, Wrap, WrapFromEnd;
    if Unwrap(c, w).0 == INITIAL_VALUE {
      WrapFromEndOfUnwrap(c, w);
      assert IsWrapFromEndOf(c, Unwrap(c, w).1, w);
    }
    forall p: bytes | IsWrapFromEndOf(c, p, w)
      ensures Unwrap(c, w) == (INITIAL_VALUE, p)
    {
      UnwrapOfWrapFromEnd(c, p);
    }
    if |w| % 8 == 0 {
      SameWraps(c, w);
    }
  }

  // ---------------------------------------------------------------- texts that are not whole blocks

  // Wrapping counts blocks from the front and unwrapping from the end. A
  // permutation that marks one block in the other half tells the two apart.

  const MARK: Half := [0, 0, 0, 0, 0, 0, 0, 1]

  /** The byte k above x, wrapping around. */
  function Plus(x: int, k: nat): byte
    requires 0 <= x
  {
    (x + k) % 256
  }

  function Bump(b: Block): Block {
    if b[8..] == MARK then b[0 := Plus(b[0], 1)] else b
  }

  function Unbump(b: Block): Block {
    if b[8..] == MARK then b[0 := Plus(b[0], 255)] else b
  }

  const BUMPING: BlockCipher := BlockCipher(Bump, Unbump)

  lemma PlusTwice(x: byte, j: nat, k: nat)
    ensures Plus(Plus(x, j), k) == Plus(x, j + k)
  {
  }

  lemma BumpTwice(b: Block)
    ensures Unbump(Bump(b)) == b && Bump(Unbump(b)) == b
  {
    PlusTwice(b[0], 1, 255);
    PlusTwice(b[0], 255, 1);
    assert Plus(b[0], 256) == b[0];
    hide Plus;
    assert Bump(b)[8..] == b[8..] == Unbump(b)[8..];
  }

  lemma BumpingIsPermutation()
    ensures BUMPING.Permutation()
  {
    forall b: Block
      ensures Unbump(Bump(b)) == b && Bump(Unbump(b)) == b
    {
      BumpTwice(b);
    }
    hide Bump, Unbump;
  }

  lemma BumpOne(a: Half, x: Half, t: nat)
    ensures var (b, y) := WrapOne(BUMPING, CutMix, a, x, t);
            y == x && b[0] == if x == MARK then Plus(a[0], 1) else a[0]
  {
    var z: Block := a + x;
    assert z[8..] == x && Bump(z)[8..] == x;
  }

  /** Only the first register may be marked. */
  ghost predicate MarkedFirst(r: seq<Half>, marked: bool) {
    forall k :: 0 <= k < |r| ==> (r[k] == MARK <==> marked && k == 0)
  }

  /** How often the marked register has been met. */
  function Bumps(marked: bool, j: nat, i: nat): nat {
    if marked then j + (if i > 0 then 1 else 0) else 0
  }

  lemma {:induction false} BumpKeepsRegisters(st: State, j: nat, i: nat)
    requires i <= |st.r|
    ensures Index(WrapStep(BUMPING, CutMix), st, j, i).r == st.r
    decreases j, i
  {
    hide WrapOne, CutMix;
    if i > 0 {
      BumpKeepsRegisters(st, j, i - 1);
      var x := Index(WrapStep(BUMPING, CutMix), st, j, i - 1);
      BumpOne(x.a, x.r[i - 1], |st.r| * j + i);
    } else if j > 0 {
      BumpKeepsRegisters(st, j - 1, |st.r|);
    }
  }

  lemma {:induction false} BumpIndex(st: State, marked: bool, j: nat, i: nat)
    requires st.r != [] && i <= |st.r| && MarkedFirst(st.r, marked)
    ensures Index(WrapStep(BUMPING, CutMix), st, j, i).a[0] == Plus(st.a[0], Bumps(marked, j, i))
    decreases j, i
  {
    hide WrapOne, CutMix, Plus;
    if i > 0 {
      BumpIndex(st, marked, j, i - 1);
      BumpKeepsRegisters(st, j, i - 1);
      var x := Index(WrapStep(BUMPING, CutMix), st, j, i - 1);
      BumpOne(x.a, st.r[i - 1], |st.r| * j + i);
      PlusTwice(st.a[0], Bumps(marked, j, i - 1), 1);
    } else if j > 0 {
      BumpIndex(st, marked, j - 1, |st.r|);
    } else {
      PlusNothing(st.a[0]);
    }
  }

  lemma PlusNothing(x: byte)
    ensures Plus(x, 0) == x
  {
  }

  lemma BumpAll(r: seq<Half>, marked: bool)
    requires r != [] && MarkedFirst(r, marked)
    ensures var x := WrapAll(BUMPING, Registers(INITIAL_VALUE, r));
            x.r == r && x.a[0] == if marked then 0xAC else 0xA6
  {
    hide Index, MarkedFirst, WrapStep;
    BumpIndex(Registers(INITIAL_VALUE, r), marked, 5, |r|);
    BumpKeepsRegisters(Registers(INITIAL_VALUE, r), 5, |r|);
  }

  /** A text that starts with the mark. */
  function MarkedText(len: nat): (p: bytes)
    requires len >= 16
    ensures |p| == len
  {
    MARK + Repeat(0, len - 8)
  }

  lemma FrontIsMarked(len: nat)
    requires len >= 16
    ensures MarkedFirst(Split(MarkedText(len)), true)
  {
    var p := MarkedText(len);
    forall k | 0 <= k < len / 8
      ensures Split(p)[k] == MARK <==> k == 0
    {
      assert Split(p)[k][7] == p[8 * k + 7];
      assert k == 0 ==> Split(p)[k] == MARK;
    }
  }

  lemma EndIsNotMarked(len: nat)
    requires len >= 16 && len % 8 != 0
    ensures MarkedFirst(Split(MarkedText(len)[len % 8..]), false)
  {
    var p, h := MarkedText(len), len % 8;
    forall k | 0 <= k < |Split(p[h..])|
      ensures Split(p[h..])[k] != MARK
    {
      assert Split(p[h..])[k][7] == p[h + 8 * k + 7] == 0;
    }
  }

  lemma FirstByteFromFront(len: nat)
    requires len >= 16
    ensures var w := Wrap(BUMPING, MarkedText(len)); w[0] == 0xAC && w[8..] == MarkedText(len)
  {
    var p := MarkedText(len);
    FrontIsMarked(len);
    var k, x := 8 * (len / 8), WrapAll(BUMPING, Registers(INITIAL_VALUE, Split(p)));
    BumpAll(Split(p), true);
    SplitIgnoresTail(p);
    JoinSplit(p[..k]);
    Rejoin(p, k);
    assert Wrap(BUMPING, p) == x.a + Join(x.r) + p[k..];
    hide *;
    Assoc(x.a, p[..k], p[k..]);
    Halves(x.a, p);
  }

  lemma SplitIgnoresTail(p: bytes)
    ensures Split(p) == Split(p[..8 * (|p| / 8)])
  {
    forall k | 0 <= k < |p| / 8
      ensures Split(p)[k] == Split(p[..8 * (|p| / 8)])[k]
    {
      assert p[..8 * (|p| / 8)][8 * k..8 * k + 8] == p[8 * k..8 * k + 8];
    }
  }

  /** Wrapping from the end with this permutation leaves the text as it is. */
  lemma FirstByteFromEnd(len: nat)
    requires len >= 16 && len % 8 != 0
    ensures WrapFromEnd(BUMPING, MarkedText(len))[0] == 0xA6
  {
    EndIsNotMarked(len);
    BumpAll(Split(MarkedText(len)[len % 8..]), false);
    hide WrapAll, Split, Join, MarkedText;
  }

  lemma BumpKeepsAll(st: State)
    ensures WrapAll(BUMPING, st).r == st.r
  {
    BumpKeepsRegisters(st, 5, |st.r|);
  }

  lemma BumpKeepsText(p: bytes)
    requires |p| >= 8
    ensures WrapFromEnd(BUMPING, p)[8..] == p
  {
    var head := |p| % 8;
    var st := Registers(INITIAL_VALUE, Split(p[head..]));
    assert WrapFromEnd(BUMPING, p) == WrapAll(BUMPING, st).a + (p[..head] + Join(WrapAll(BUMPING, st).r));
    hide *;
    BumpKeepsAll(st);
    JoinSplit(p[head..]);
    Rejoin(p, head);
    Halves(WrapAll(BUMPING, st).a, p);
  }

  /** The wrapped marked text is refused: a text that is not of whole blocks and
      is lost by being wrapped. */
  lemma MarkedTextIsRefused(len: nat)
    requires len >= 16 && len % 8 != 0
    ensures Unwrap(BUMPING, Wrap(BUMPING, MarkedText(len))).0 != INITIAL_VALUE
  {
    hide *;
    var w := Wrap(BUMPING, MarkedText(len));
    var q := Unwrap(BUMPING, w);
    if q.0 == INITIAL_VALUE {
      BumpingIsPermutation();
      WrapFromEndOfUnwrap(BUMPING, w);
      BumpKeepsText(q.1);
      FirstByteFromFront(len);
      FirstByteFromEnd(len);
    }
  }

  lemma MarkedTextIsAccepted(len: nat)
    requires len >= 16 && len % 8 != 0
    ensures var w := WrapFromEnd(BUMPING, MarkedText(len));
            Unwrap(BUMPING, w) == (INITIAL_VALUE, MarkedText(len)) && Wrap(BUMPING, MarkedText(len)) != w
  {
    hide *;
    BumpingIsPermutation();
    UnwrapOfWrapFromEnd(BUMPING, MarkedText(len));
    FirstByteFromFront(len);
    FirstByteFromEnd(len);
  }

  /** The lengths at which unwrapping inverts wrapping. */
  lemma RoundTripIsExactlyWholeBlocks(len: nat)
    requires len >= 16
    ensures (forall c: BlockCipher, p: bytes :: c.Permutation() && |p| == len ==> Unwrap(c, Wrap(c, p)) == (INITIAL_VALUE, p))
       <==> len % 8 == 0
  {
    hide Wrap, Unwrap, MarkedText;
    if len % 8 == 0 {
      forall c: BlockCipher, p: bytes | c.Permutation() && |p| == len
        ensures Unwrap(c, Wrap(c, p)) == (INITIAL_VALUE, p)
      {
        UnwrapOfWrap(c, p);
      }
    } else {
      BumpingIsPermutation();
      MarkedTextIsRefused(len);
    }
  }

  ghost predicate AcceptsExactlyWraps(c: BlockCipher, w: bytes)
    requires |w| >= 16
  {
    Unwrap(c, w).0 == INITIAL_VALUE <==> exists p: bytes :: IsWrapOf(c, p, w)
  }

  /** The lengths of wrapped text at which exactly the wrapped texts are accepted. */
  lemma AcceptanceIsExactlyWholeBlocks(len: nat)
    requires len >= 24
    ensures (forall c: BlockCipher, w: bytes :: c.Permutation() && |w| == len ==> AcceptsExactlyWraps(c, w))
       <==> len % 8 == 0
  {
    hide Wrap, Unwrap, MarkedText;
    if len % 8 == 0 {
      forall c: BlockCipher, w: bytes | c.Permutation() && |w| == len
        ensures AcceptsExactlyWraps(c, w)
      {
        UnwrapAcceptsExactlyWraps(c, w);
      }
    } else {
      BumpingIsPermutation();
      MarkedTextIsRefused(len - 8);
      var w := Wrap(BUMPING, MarkedText(len - 8));
      assert IsWrapOf(BUMPING, MarkedText(len - 8), w);
      assert !AcceptsExactlyWraps(BUMPING, w);
    }
  }

  /** The lengths of wrapped text at which whatever is accepted wraps back to the
      same input. */
  lemma RewrapIsExactlyWholeBlocks(len: nat)
    requires len >= 24
    ensures (forall c: BlockCipher, w: bytes ::
              c.Permutation() && |w| == len && Unwrap(c, w).0 == INITIAL_VALUE ==> Wrap(c, Unwrap(c, w).1) == w)
       <==> len % 8 == 0
  {
    hide Wrap, Unwrap, WrapFromEnd, MarkedText;
    if len % 8 == 0 {
      forall c: BlockCipher, w: bytes | c.Permutation() && |w| == len && Unwrap(c, w).0 == INITIAL_VALUE
        ensures Wrap(c, Unwrap(c, w).1) == w
      {
        WrapOfUnwrap(c, w);
      }
    } else {
      BumpingIsPermutation();
      MarkedTextIsAccepted(len - 8);
    }
  }

  // ---------------------------------------------------------------- the RFC's equations

  /** The default initial value, byte by byte. */
  lemma InitialValueBytes()
    ensures INITIAL_VALUE == [0xA6, 0xA6, 0xA6, 0xA6, 0xA6, 0xA6, 0xA6, 0xA6]
  {
  }

  /** The code's mixing is exclusive-or with t cut to a byte. */
  lemma CutMixIsXor(a: Half, t: nat)
    ensures CutMix(a, t) == XorBytes(a, BigEndian(t % 256, 8))
    ensures CutMix(a, t)[..7] == a[..7] && IsXor(CutMix(a, t)[7], a[7], t % 256)
  {
    hide *;
    MixesAgreeBelow256(a, t % 256);
    CutMixBytes(a, t);
    RfcMixIsXor(a, t % 256);
  }

  lemma CutMixBytes(a: Half, t: nat)
    ensures CutMix(a, t) == CutMix(a, t % 256)
    ensures CutMix(a, t)[..7] == a[..7] && IsXor(CutMix(a, t)[7], a[7], t % 256)
  {
    hide *;
    CutMixAt(a, t, t % 256);
    CutMixAt(a, t % 256, t % 256);
    XorIsBitwise(a[7], t % 256);
  }

  lemma CutMixAt(a: Half, t: nat, k: byte)
    requires k == t % 256
    ensures CutMix(a, t) == a[7 := Xor(a[7], k)]
  {
    hide Xor;
  }

  lemma RfcMixIsXor(a: Half, t: nat)
    ensures RfcMix(a, t) == XorBytes(a, BigEndian(t, 8))
  {
    hide XorBytes, BigEndian;
  }

  /** One step of section 2.2.1 of RFC 3394, by the block cipher alone: B is the
      encryption of A | R[1]; A becomes its first half combined with t, the other
      registers move down and its second half becomes the last one. */
  ghost predicate IsShift(c: BlockCipher, s: State, s': State, t: nat) {
    var n := |s.r|;
    && n > 0 && |s'.r| == n
    && c.enc(s.a + s.r[0]) == XorBytes(s'.a, BigEndian(t, 8)) + s'.r[n - 1]
    && forall i :: 0 <= i < n - 1 ==> s'.r[i] == s.r[i + 1]
  }

  /** The states that section 2.2.1 goes through for a text of n blocks, with t as
      it is or cut to a byte. */
  ghost predicate IsTrace(c: BlockCipher, p: bytes, cut: bool, tr: seq<State>) {
    var n := |p| / 8;
    && |tr| == 6 * n + 1
    && tr[0].a == [0xA6, 0xA6, 0xA6, 0xA6, 0xA6, 0xA6, 0xA6, 0xA6]
    && |tr[0].r| == n && (forall i :: 0 <= i < n ==> tr[0].r[i] == p[8 * i..8 * i + 8])
    && forall t :: 1 <= t <= 6 * n ==> IsShift(c, tr[t - 1], tr[t], if cut then t % 256 else t)
  }

  /** The mixing of either kind, as exclusive-or. */
  function MixOf(cut: bool): Mixer {
    if cut then CutMix else RfcMix
  }

  lemma MixIsXor(cut: bool, a: Half, t: nat)
    ensures MixOf(cut)(a, t) == XorBytes(a, BigEndian(if cut then t % 256 else t, 8))
  {
    CutMixIsXor(a, t);
  }

  /** A wrapping step obeys the RFC's equation, and is the only one that does. */
  lemma WrapOneEquation(c: BlockCipher, cut: bool, a: Half, x: Half, t: nat, a': Half, x': Half)
    ensures WrapOne(c, MixOf(cut), a, x, t) == (a', x')
       <==> c.enc(a + x) == XorBytes(a', BigEndian(if cut then t % 256 else t, 8)) + x'
  {
    var k := BigEndian(if cut then t % 256 else t, 8);
    var b := c.enc(a + x);
    MixIsXor(cut, b[..8], t);
    XorBytesTwice(b[..8], k);
    XorBytesTwice(a', k);
    hide CutMix, RfcMix, MixOf, XorBytes, BigEndian;
    Rejoin(b, 8);
    Halves(XorBytes(a', k), x');
  }

  /** An unwrapping step obeys the RFC's equation for it, and is the only one. */
  lemma UnwrapOneEquation(c: BlockCipher, a: Half, x: Half, t: nat, a': Half, x': Half)
    ensures UnwrapOne(c, a, x, t) == (a', x') <==> c.dec(XorBytes(a, BigEndian(t % 256, 8)) + x) == a' + x'
  {
    CutMixIsXor(a, t);
    hide CutMix, XorBytes, BigEndian;
    var b := c.dec(CutMix(a, t) + x);
    Rejoin(b, 8);
    Halves(a', x');
  }

  lemma ShiftIsOnlyShift(c: BlockCipher, cut: bool, s: State, s': State, t: nat)
    requires s.r != []
    ensures s' == ShiftStep(WrapStep(c, MixOf(cut)), s, t) <==> IsShift(c, s, s', if cut then t % 256 else t)
  {
    var n, u := |s.r|, ShiftStep(WrapStep(c, MixOf(cut)), s, t);
    var (a, x) := WrapOne(c, MixOf(cut), s.a, s.r[0], t);
    WrapOneEquation(c, cut, s.a, s.r[0], t, a, x);
    assert u == Registers(a, s.r[1..] + [x]);
    hide WrapOne, XorBytes, BigEndian, MixOf;
    if IsShift(c, s, s', if cut then t % 256 else t) {
      WrapOneEquation(c, cut, s.a, s.r[0], t, s'.a, s'.r[n - 1]);
      assert s'.r == s.r[1..] + [x];
    }
  }

  lemma TraceStart(c: BlockCipher, p: bytes, cut: bool, tr: seq<State>)
    requires IsTrace(c, p, cut, tr)
    ensures |tr| == 6 * (|p| / 8) + 1 && tr[0] == Registers(INITIAL_VALUE, Split(p))
  {
    hide IsShift;
    InitialValueBytes();
    assert tr[0].r == Split(p);
  }

  lemma TraceStep(c: BlockCipher, p: bytes, cut: bool, tr: seq<State>, k: nat)
    requires IsTrace(c, p, cut, tr) && 1 <= k <= 6 * (|p| / 8)
    ensures |tr| == 6 * (|p| / 8) + 1 && IsShift(c, tr[k - 1], tr[k], if cut then k % 256 else k)
  {
    hide IsShift;
  }

  lemma {:induction false} TraceIsShift(c: BlockCipher, p: bytes, cut: bool, tr: seq<State>, k: nat)
    requires |p| >= 8 && IsTrace(c, p, cut, tr) && k <= 6 * (|p| / 8)
    ensures |tr| == 6 * (|p| / 8) + 1
    ensures tr[k] == Shift(WrapStep(c, MixOf(cut)), Registers(INITIAL_VALUE, Split(p)), k)
  {
    TraceStart(c, p, cut, tr);
    hide MixOf, WrapStep, ShiftStep, IsShift, IsTrace, Split;
    if k > 0 {
      TraceIsShift(c, p, cut, tr, k - 1);
      TraceStep(c, p, cut, tr, k);
      ShiftIsOnlyShift(c, cut, tr[k - 1], tr[k], k);
    }
  }

  /** The RFC's ciphertext: whatever states obey its equations, the last one is
      what RfcWrap gives for whole blocks, and Wrap the same with t cut. */
  lemma WrapsAreTraces(c: BlockCipher, p: bytes, tr: seq<State>)
    requires |p| >= 8
    ensures IsTrace(c, p, false, tr) ==> RfcWrap(c, p) == Store(tr[6 * (|p| / 8)])
    ensures IsTrace(c, p, true, tr) ==> Wrap(c, p) == Store(tr[6 * (|p| / 8)]) + p[8 * (|p| / 8)..]
  {
    var n := |p| / 8;
    var st := Registers(INITIAL_VALUE, Split(p));
    if IsTrace(c, p, false, tr) {
      TraceIsShift(c, p, false, tr, 6 * n);
    }
    if IsTrace(c, p, true, tr) {
      TraceIsShift(c, p, true, tr, 6 * n);
      WrapAllIsShiftAll(c, st);
    }
    hide WrapAll, IsTrace, Store, WrapStep, Shift;
  }

  lemma ShiftsObey(c: BlockCipher, cut: bool, st: State, t: nat)
    requires st.r != [] && t > 0
    ensures var f := WrapStep(c, MixOf(cut));
            IsShift(c, Shift(f, st, t - 1), Shift(f, st, t), if cut then t % 256 else t)
  {
    hide IsShift, WrapStep, MixOf, ShiftStep;
    var f := WrapStep(c, MixOf(cut));
    ShiftIsOnlyShift(c, cut, Shift(f, st, t - 1), Shift(f, st, t), t);
  }

  lemma ShiftNothing(c: BlockCipher, cut: bool, st: State)
    requires st.r != []
    ensures Shift(WrapStep(c, MixOf(cut)), st, 0) == st
  {
  }

  /** There are such states for every text. */
  lemma TracesExist(c: BlockCipher, p: bytes, cut: bool)
    requires |p| >= 8
    ensures exists tr :: IsTrace(c, p, cut, tr)
  {
    hide *;
    var tr := TraceUpTo(c, cut, Registers(INITIAL_VALUE, Split(p)), 6 * (|p| / 8));
    TraceFrom(c, p, cut, tr);
  }

  lemma {:induction false} TraceUpTo(c: BlockCipher, cut: bool, st: State, k: nat) returns (tr: seq<State>)
    requires st.r != []
    ensures |tr| == k + 1 && tr[0] == st && tr[k] == Shift(WrapStep(c, MixOf(cut)), st, k)
    ensures forall t :: 1 <= t <= k ==> IsShift(c, tr[t - 1], tr[t], if cut then t % 256 else t)
  {
    hide *;
    if k == 0 {
      ShiftNothing(c, cut, st);
      tr := [st];
    } else {
      tr := TraceUpTo(c, cut, st, k - 1);
      ShiftsObey(c, cut, st, k);
      tr := tr + [Shift(WrapStep(c, MixOf(cut)), st, k)];
    }
  }

  lemma TraceFrom(c: BlockCipher, p: bytes, cut: bool, tr: seq<State>)
    requires |tr| == 6 * (|p| / 8) + 1 && tr[0] == Registers(INITIAL_VALUE, Split(p))
    requires forall t :: 1 <= t <= 6 * (|p| / 8) ==> IsShift(c, tr[t - 1], tr[t], if cut then t % 256 else t)
    ensures IsTrace(c, p, cut, tr)
  {
    hide IsShift;
    InitialValueBytes();
  }

  // ---------------------------------------------------------------- agreement with the RFC

  lemma MixesAgreeBelow256(a: Half, t: nat)
    requires t < 256
    ensures CutMix(a, t) == RfcMix(a, t)
  {
    MixHighBytes(a, t);
    XorZeroes(a[..7]);
    assert BigEndian(t, 8)[7] == t;
    assert RfcMix(a, t) == RfcMix(a, t)[..7] + [RfcMix(a, t)[7]];
    assert CutMix(a, t) == a[..7] + [Xor(a[7], t)];
  }

  lemma ShiftAllAgrees(c: BlockCipher, st: State)
    requires 1 <= |st.r| <= 42
    ensures ShiftAll(c, CutMix, st) == ShiftAll(c, RfcMix, st)
  {
    var k := 6 * |st.r|;
    forall a: Half, x: Half, t: nat | 1 <= t <= k
      ensures WrapStep(c, CutMix)(a, x, t) == WrapStep(c, RfcMix)(a, x, t)
    {
      MixesAgreeBelow256(c.enc(a + x)[..8], t);
    }
    ShiftCongruence(WrapStep(c, CutMix), WrapStep(c, RfcMix), st, k);
  }

  /** Up to 42 blocks the code computes the RFC's ciphertext. */
  lemma WrapIsRfcWrap(c: BlockCipher, p: bytes)
    requires 16 <= |p| <= 8 * 42 && |p| % 8 == 0
    ensures Wrap(c, p) == RfcWrap(c, p)
  {
    var st := Registers(INITIAL_VALUE, Split(p));
    WrapAligned(c, p);
    WrapAllIsShiftAll(c, st);
    ShiftAllAgrees(c, st);
  }

  // Beyond 42 blocks the identity permutation already tells the two apart:
  // with it, R never changes and A only accumulates the step numbers.

  const IDENTITY: BlockCipher := BlockCipher((b: Block) => b, (b: Block) => b)

  ghost predicate Identity(c: BlockCipher) {
    forall b: Block :: c.enc(b) == b == c.dec(b)
  }

  /** A after mixing in 1, ..., k and nothing else. */
  function Mixed(mix: Mixer, a: Half, k: nat): Half {
    if k == 0 then a else mix(Mixed(mix, a, k - 1), k)
  }

  lemma {:induction false} IdentityOnlyMixes(c: BlockCipher, mix: Mixer, st: State, k: nat)
    requires Identity(c) && st.r != []
    ensures Shift(WrapStep(c, mix), st, k).a == Mixed(mix, st.a, k)
  {
    if k > 0 {
      IdentityOnlyMixes(c, mix, st, k - 1);
      var s := Shift(WrapStep(c, mix), st, k - 1);
      var x: Block := s.a + s.r[0];
      assert x[..8] == s.a;
    }
  }

  /** x combined with f(1), ..., f(k). */
  function XorUpTo(f: nat -> bytes, x: bytes, k: nat): bytes {
    if k == 0 then x else XorBytes(XorUpTo(f, x, k - 1), f(k))
  }

  /** When f(2m) = f(2m + 1), the values cancel in pairs up to the last one. */
  lemma {:induction false} PairsCancel(f: nat -> bytes, x: bytes, k: nat)
    requires forall m: nat :: |f(m)| == |x|
    requires forall m: nat :: m % 2 == 1 ==> f(m) == f(m - 1)
    requires XorBytes(x, f(0)) == x
    ensures XorUpTo(f, x, k) == if k % 2 == 0 then XorBytes(x, f(k)) else x
  {
    hide XorBytes;
    if k > 0 {
      PairsCancel(f, x, k - 1);
      if k % 2 == 1 {
        XorBytesTwice(x, f(k));
      }
    }
  }

  function High(t: nat): bytes {
    BigEndian(t / 256, 7)
  }

  lemma {:induction false} HighBytesUncut(a: Half, k: nat)
    ensures Mixed(RfcMix, a, k)[..7] == XorUpTo(High, a[..7], k)
  {
    if k > 0 {
      HighBytesUncut(a, k - 1);
      MixHighBytes(Mixed(RfcMix, a, k - 1), k);
    }
  }

  lemma HighBytesAfterEvenSteps(a: Half, k: nat)
    requires k % 2 == 0
    ensures Mixed(RfcMix, a, k)[..7] == XorBytes(a[..7], High(k))
  {
    HighBytesUncut(a, k);
    forall m: nat | m % 2 == 1
      ensures High(m) == High(m - 1)
    {
      SameHighPart(m);
    }
    XorZeroes(a[..7]);
    PairsCancel(High, a[..7], k);
  }

  lemma SameHighPart(k: nat)
    requires k % 2 == 1
    ensures k / 256 == (k - 1) / 256
  {
    var m, q := k / 2, k / 256;
    assert k == 2 * m + 1 && 256 * q <= k < 256 * q + 256;
    assert 128 * q <= m;
  }

  lemma {:induction false} HighBytesCut(a: Half, k: nat)
    ensures Mixed(CutMix, a, k)[..7] == a[..7]
  {
    if k > 0 {
      HighBytesCut(a, k - 1);
    }
  }

  lemma MixHighBytes(a: Half, t: nat)
    ensures RfcMix(a, t)[..7] == XorBytes(a[..7], BigEndian(t / 256, 7))
  {
    assert BigEndian(t, 8)[..7] == BigEndian(t / 256, 7);
  }

  lemma XorZeroes(a: bytes)
    ensures XorBytes(a, BigEndian(0, |a|)) == a
  {
    ZeroBytes(|a|);
    forall i | 0 <= i < |a|
      ensures XorBytes(a, BigEndian(0, |a|))[i] == a[i]
    {
      XorLaws(a[i], 0);
    }
  }

  lemma {:induction false} ZeroBytes(w: nat)
    ensures BigEndian(0, w) == Repeat(0, w)
  {
    if w > 0 {
      ZeroBytes(w - 1);
    }
  }

  lemma XorBytesNonZero(a: bytes, b: bytes)
    requires |a| == |b| && XorBytes(a, b) == a
    ensures b == Repeat(0, |b|)
  {
    forall i | 0 <= i < |b|
      ensures b[i] == 0
    {
      assert XorBytes(a, b)[i] == Xor(a[i], b[i]) == a[i];
      XorUnitIsUnique(a[i], b[i]);
    }
  }

  lemma XorUnitIsUnique(a: byte, b: byte)
    requires Xor(a, b) == a
    ensures b == 0
  {
    XorSymmetric(a, b);
    XorLaws(b, a);
    XorSymmetric(a, a);
    XorSelf(a);
  }

  lemma XorSymmetric(a: byte, b: byte)
    ensures Xor(a, b) == Xor(b, a)
  {
    Pow2Of8();
    XorBitsSymmetric(a, b, 8);
  }

  lemma {:induction false} XorBitsSymmetric(a: nat, b: nat, k: nat)
    requires a < Pow2(k) && b < Pow2(k)
    ensures XorBits(a, b, k) == XorBits(b, a, k)
  {
    if k != 0 {
      XorBitsSymmetric(a / 2, b / 2, k - 1);
    }
  }

  lemma XorSelf(a: byte)
    ensures Xor(a, a) == 0
  {
    XorLaws(0, a);
    XorSymmetric(0, a);
    XorLaws(a, 0);
  }

  lemma {:induction false} Pow256Of7()
    ensures Pow256(7) == 0x100_0000_0000_0000
  {
    assert Pow256(2) == 0x1_0000;
    assert Pow256(4) == 0x1_0000_0000;
    assert Pow256(6) == 0x1_0000_0000_0000;
  }

  lemma MixedDiffer(a: Half, k: nat)
    requires k % 2 == 0 && 256 <= k < 0x1_0000_0000_0000_0000
    ensures Mixed(CutMix, a, k) != Mixed(RfcMix, a, k)
  {
    HighBytesCut(a, k);
    HighBytesAfterEvenSteps(a, k);
    HighPartIsNotZero(k);
    if XorBytes(a[..7], High(k)) == a[..7] {
      XorBytesNonZero(a[..7], High(k));
    }
  }

  lemma HighPartIsNotZero(k: nat)
    requires 256 <= k < 0x1_0000_0000_0000_0000
    ensures High(k) != Repeat(0, 7)
  {
    Pow256Of7();
    FromToBigEndian(k / 256, 7);
    ZeroBytes(7);
    FromToBigEndian(0, 7);
  }

  /** Above 42 blocks the cut step value loses agreement with the RFC, for
      every plaintext, as soon as the block cipher is the identity. */
  lemma WrapLeavesRfcAbove42Blocks(c: BlockCipher, p: bytes)
    requires Identity(c) && |p| > 8 * 42 && |p| % 8 == 0 && 6 * (|p| / 8) < 0x1_0000_0000_0000_0000
    ensures Wrap(c, p) != RfcWrap(c, p)
  {
    var st := Registers(INITIAL_VALUE, Split(p));
    WrapAligned(c, p);
    WrapAllIsShiftAll(c, st);
    ShiftAllDiffers(c, st);
    StoreKeepsA(ShiftAll(c, CutMix, st));
    StoreKeepsA(ShiftAll(c, RfcMix, st));
  }

  lemma ShiftAllDiffers(c: BlockCipher, st: State)
    requires Identity(c) && 42 < |st.r| && 6 * |st.r| < 0x1_0000_0000_0000_0000
    ensures ShiftAll(c, CutMix, st).a != ShiftAll(c, RfcMix, st).a
  {
    hide *;
    IdentityAll(c, CutMix, st);
    IdentityAll(c, RfcMix, st);
    MixedDiffer(st.a, 6 * |st.r|);
  }

  lemma IdentityAll(c: BlockCipher, mix: Mixer, st: State)
    requires Identity(c) && st.r != []
    ensures ShiftAll(c, mix, st).a == Mixed(mix, st.a, 6 * |st.r|)
  {
    IdentityOnlyMixes(c, mix, st, 6 * |st.r|);
  }

  lemma StoreKeepsA(st: State)
    ensures Store(st)[..8] == st.a
  {
  }

  /** The numbers of 8-byte blocks for which the code is RFC 3394. */
  lemma RfcAgreementIsExactly42Blocks(n: nat)
    requires 2 <= n && 6 * n < 0x1_0000_0000_0000_0000
    ensures (forall c: BlockCipher, p: bytes :: c.Permutation() && |p| == 8 * n ==> Wrap(c, p) == RfcWrap(c, p))
       <==> n <= 42
  {
    if n <= 42 {
      forall c: BlockCipher, p: bytes | c.Permutation() && |p| == 8 * n
        ensures Wrap(c, p) == RfcWrap(c, p)
      {
        WrapIsRfcWrap(c, p);
      }
    } else {
      var p: bytes := Repeat(0, 8 * n);
      assert IDENTITY.Permutation();
      WrapLeavesRfcAbove42Blocks(IDENTITY, p);
    }
  }
}
