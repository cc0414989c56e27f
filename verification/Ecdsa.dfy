/** Conversion of ECDSA signatures (source/windows/bcrypt_ecc.c): the provider
    works on two fixed-width integers, the library on the Ecdsa-Sig-Value of
    section 2.2.3 of RFC 3279. */
module Ecdsa {
  import opened Bytes
  import opened DerSyntax
  import opened DerList
  import opened DerDecoder
  import opened DerDocument
  import opened DerEncoder
  import opened Ecc

  const MAX_SIGNATURE_LENGTH: nat := 96
  const DER_OVERHEAD: nat := 8

  /** s_signature_length */
  function SignatureLength(c: Curve): nat {
    DER_OVERHEAD + CoordinateSize(c) * 2
  }

  // ---------------------------------------------------------------- trimming and padding

  function TrimZeros(v: bytes): (r: bytes)
    ensures |r| <= |v|
    ensures r != [] ==> r[0] != 0
  {
    if v != [] && v[0] == 0 then TrimZeros(v[1..]) else v
  }

  /** v with zeros in front of it until it is n bytes long. */
  function Padded(v: bytes, n: nat): (r: bytes)
    ensures |r| == if |v| < n then n else |v|
  {
    Repeat(0, if |v| < n then n - |v| else 0) + v
  }

  predicate NonZero(v: bytes) {
    exists i :: 0 <= i < |v| && v[i] != 0
  }

  lemma {:induction false} TrimNonZero(v: bytes)
    ensures TrimZeros(v) != [] <==> NonZero(v)
  {
    if v != [] && v[0] == 0 {
      TrimNonZero(v[1..]);
      if NonZero(v) {
        var i :| 0 <= i < |v| && v[i] != 0;
        assert v[1..][i - 1] != 0;
      }
    } else if v != [] {
      assert v[0] != 0;
    }
  }

  lemma {:induction false} PadOfTrim(v: bytes)
    ensures Padded(TrimZeros(v), |v|) == v
  {
    if v != [] && v[0] == 0 {
      PadOfTrim(v[1..]);
      PadOneMore(TrimZeros(v[1..]), |v| - 1);
      assert v == [0] + v[1..];
    }
  }

  lemma PadOneMore(v: bytes, n: nat)
    requires |v| <= n
    ensures Padded(v, n + 1) == [0] + Padded(v, n)
  {
    RepeatMore(0, n - |v|);
    Assoc([0], Repeat(0, n - |v|), v);
  }

  lemma {:induction false} TrimOfPad(v: bytes, n: nat)
    requires v != [] && v[0] != 0
    ensures TrimZeros(Padded(v, n)) == v
    decreases n
  {
    if |v| < n {
      PadOneMore(v, n - 1);
      assert Padded(v, n)[1..] == Padded(v, n - 1);
      TrimOfPad(v, n - 1);
    }
  }

  lemma {:induction false} PadKeepsValue(v: bytes, n: nat)
    ensures FromBigEndian(Padded(v, n)) == FromBigEndian(v)
    decreases n
  {
    if |v| < n {
      PadOneMore(v, n - 1);
      LeadingZero(Padded(v, n - 1));
      PadKeepsValue(v, n - 1);
    } else {
      AppendNothing(v, Repeat(0, 0));
    }
  }

  /** Padding gives the fixed-width form of the same unsigned integer. */
  lemma PaddedIsFixedWidth(v: bytes, n: nat)
    requires |v| <= n
    ensures Padded(v, n) == BigEndian(FromBigEndian(v), n)
  {
    PadKeepsValue(v, n);
    ToFromBigEndian(Padded(v, n));
  }

  // ---------------------------------------------------------------- signing: r || s to DER

  /** Ecdsa-Sig-Value: a sequence of the two integers. */
  function SignatureItems(r: bytes, s: bytes): seq<Item> {
    [Container(SEQUENCE, [Integer(r), Integer(s)])]
  }

  /** The DER form of a raw signature of two halves. */
  function SignatureDer(raw: bytes): bytes {
    var n := |raw| / 2;
    Encode(SignatureItems(TrimZeros(raw[..n]), TrimZeros(raw[n..])))
  }

  /** A raw signature on curve c: two coordinate-sized numbers, neither zero. */
  predicate RawFits(c: Curve, raw: bytes) {
    var n := CoordinateSize(c);
    |raw| == 2 * n && NonZero(raw[..n]) && NonZero(raw[n..])
  }

  predicate IntegerFits(v: bytes) {
    0 < |v| <= 48 && v[0] != 0
  }

  /** An integer as DER wants it, of up to a quarter of the 32-bit range. */
  predicate Positive(v: bytes) {
    0 < |v| < 0x4000_0000 && v[0] != 0
  }

  lemma TrimmedFits(c: Curve, v: bytes)
    requires |v| == CoordinateSize(c) && NonZero(v)
    ensures IntegerFits(TrimZeros(v))
  {
    TrimNonZero(v);
  }

  lemma IntegerEncodingLength(v: bytes)
    requires IntegerFits(v)
    ensures |v| + 2 <= |Encoding(INTEGER, v)| <= |v| + 3
  {
  }

  lemma SequenceEncodingLength(v: bytes)
    requires |v| <= 102
    ensures |Encoding(SEQUENCE, v)| == |v| + 2
  {
  }

  lemma EncodeNothing()
    ensures Encode([]) == []
  {
  }

  lemma IntegerContent(v: bytes)
    requires Positive(v)
    ensures |Content(INTEGER, v)| < UINT32_RANGE && ItemTag(Integer(v)) == INTEGER && ValueOf(Integer(v)) == v
  {
  }

  lemma EncodeOneInteger(xs: seq<Item>, v: bytes)
    requires Positive(v)
    ensures Encode(xs + [Integer(v)]) == Encode(xs) + Encoding(INTEGER, v)
  {
    IntegerContent(v);
    hide *;
    EncodeOneMore(xs, Integer(v));
  }

  /** The body of the sequence. */
  function SignatureBody(r: bytes, s: bytes): bytes {
    Encoding(INTEGER, r) + Encoding(INTEGER, s)
  }

  lemma EncodeBody(r: bytes, s: bytes)
    requires Positive(r) && Positive(s)
    ensures Encode([Integer(r), Integer(s)]) == SignatureBody(r, s)
  {
    hide Encoding, Encode, Positive;
    EncodeNothing();
    EncodeOneInteger([], r);
    assert [] + [Integer(r)] == [Integer(r)];
    EncodeOneInteger([Integer(r)], s);
    assert [Integer(r)] + [Integer(s)] == [Integer(r), Integer(s)];
    AppendNothing(Encoding(INTEGER, r), []);
  }

  lemma SequenceContent(xs: seq<Item>)
    ensures var x := Container(SEQUENCE, xs);
            ItemTag(x) == SEQUENCE && ValueOf(x) == Encode(xs) && Content(SEQUENCE, Encode(xs)) == Encode(xs)
  {
  }

  lemma EncodingLength(tag: byte, v: bytes)
    ensures |Encoding(tag, v)| <= |Content(tag, v)| + 6
    ensures tag == INTEGER ==> |Content(tag, v)| <= |v| + 1
    ensures tag == SEQUENCE ==> |Content(tag, v)| == |v|
  {
  }

  /** What the encoder calls of s_sign_message write. */
  lemma EncodeAnySignature(r: bytes, s: bytes)
    requires Positive(r) && Positive(s)
    ensures Encode(SignatureItems(r, s)) == Encoding(SEQUENCE, SignatureBody(r, s))
    ensures |Encode(SignatureItems(r, s))| <= |r| + |s| + 20
  {
    var xs := [Integer(r), Integer(s)];
    hide Encoding, Encode, Content, ValueOf, ItemTag;
    EncodingLength(INTEGER, r);
    EncodingLength(INTEGER, s);
    EncodingLength(SEQUENCE, SignatureBody(r, s));
    EncodeBody(r, s);
    SequenceContent(xs);
    EncodeNothing();
    EncodeOneMore([], Container(SEQUENCE, xs));
    assert [] + [Container(SEQUENCE, xs)] == SignatureItems(r, s);
    AppendNothing(Encoding(SEQUENCE, SignatureBody(r, s)), []);
  }

  /** And how much of it, for integers of coordinate size. */
  lemma EncodeSignatureItems(r: bytes, s: bytes)
    requires IntegerFits(r) && IntegerFits(s)
    ensures Encode(SignatureItems(r, s)) == Encoding(SEQUENCE, SignatureBody(r, s))
    ensures |SignatureBody(r, s)| <= |r| + |s| + 6
    ensures |Encode(SignatureItems(r, s))| == |SignatureBody(r, s)| + 2
  {
    hide Encoding, Encode, SignatureItems, SignatureBody;
    EncodeAnySignature(r, s);
    BodyLength(r, s);
    SequenceEncodingLength(SignatureBody(r, s));
  }

  lemma IntegerOctets(v: bytes)
    requires IntegerFits(v)
    ensures var pad := if v[0] >= 0x80 then [0x00] else [];
            Encoding(INTEGER, v) == [0x02, |pad| + |v|] + (pad + v)
  {
    var k := EncodedLen(INTEGER, v);
    LengthOctetsAre(Short, k);
    assert [INTEGER] + [k] == [0x02, k];
    hide LengthOctets;
  }

  /** Ecdsa-Sig-Value of section 2.2.3 of RFC 3279, octet by octet. */
  lemma SignatureOctets(r: bytes, s: bytes)
    requires IntegerFits(r) && IntegerFits(s)
    ensures var p, q := if r[0] >= 0x80 then [0x00] else [], if s[0] >= 0x80 then [0x00] else [];
            Encode(SignatureItems(r, s)) == [0x30, 4 + |p| + |r| + |q| + |s|]
              + ([0x02, |p| + |r|] + (p + r) + ([0x02, |q| + |s|] + (q + s)))
  {
    var b := SignatureBody(r, s);
    IntegerOctets(r);
    IntegerOctets(s);
    BodyLength(r, s);
    SequenceOctets(b);
    hide Encode, Encoding, SignatureItems;
    EncodeSignatureItems(r, s);
  }

  lemma SequenceOctets(b: bytes)
    requires |b| <= 102
    ensures Encoding(SEQUENCE, b) == [0x30, |b|] + b
  {
    LengthOctetsAre(Short, |b|);
    assert [SEQUENCE] + [|b|] == [0x30, |b|];
    hide LengthOctets;
  }

  /** The room that is asked for. */
  lemma SignatureLengths()
    ensures SignatureLength(P256) == 72 && SignatureLength(P384) == 104
  {
  }

  lemma EmitTop(m: Machine, tag: byte, value: bytes)
    requires |Top(m)| + |Encoding(tag, value)| <= m.capacity
    ensures Emit(m, tag, value) == Some(WithTop(m, Top(m) + Encoding(tag, value)))
  {
  }

  lemma IntegerStep(m: Machine, frame: Frame, v: bytes)
    requires m.stack == [frame] && IntegerFits(v) && |frame.buf| + |v| + 3 <= m.capacity
    ensures Writable(Integer(v))
    ensures Step(m, DerDocument.Write(Integer(v)))
         == Some(m.(stack := [Frame(frame.tag, frame.buf + Encoding(INTEGER, v))]))
  {
    IntegerEncodingLength(v);
    hide Encoding, Emit;
    EmitTop(m, INTEGER, v);
    assert [frame][0 := Frame(frame.tag, frame.buf + Encoding(INTEGER, v))]
        == [Frame(frame.tag, frame.buf + Encoding(INTEGER, v))];
  }

  lemma SequenceEnd(m: Machine, body: bytes)
    requires m.stack == [Frame(SEQUENCE, body)] && m.storage == [] && |body| <= 102 && |body| + 2 <= m.capacity
    ensures Step(m, End) == Some(Machine(m.capacity, Encoding(SEQUENCE, body), []))
  {
    SequenceEncodingLength(body);
    assert |body| % UINT32_RANGE == |body| && body[..|body|] == body;
    hide Encoding, Emit;
    EmitTop(m.(stack := []), SEQUENCE, body);
    AppendNothing(Encoding(SEQUENCE, body), []);
  }

  lemma FirstCall(capacity: nat)
    ensures Step(Machine(capacity, [], []), Begin(SEQUENCE)) == Some(Machine(capacity, [], [Frame(SEQUENCE, [])]))
  {
    AppendNothing([Frame(SEQUENCE, [])], []);
  }

  /** The states the encoder goes through: with room for the sequence, each of
      the calls of s_sign_message succeeds. */
  lemma SignatureSteps(capacity: nat, r: bytes, s: bytes) returns (m1: Machine, m2: Machine, m3: Machine)
    requires IntegerFits(r) && IntegerFits(s) && |r| + |s| + 8 <= capacity
    ensures Step(Machine(capacity, [], []), Begin(SEQUENCE)) == Some(m1)
    ensures Writable(Integer(r)) && Step(m1, DerDocument.Write(Integer(r))) == Some(m2)
    ensures Writable(Integer(s)) && Step(m2, DerDocument.Write(Integer(s))) == Some(m3)
    ensures Step(m3, End) == Some(Machine(capacity, Encode(SignatureItems(r, s)), []))
  {
    IntegerLength(r);
    BodyLength(r, s);
    hide *;
    m1 := Machine(capacity, [], [Frame(SEQUENCE, [])]);
    FirstCall(capacity);
    IntegerStep(m1, Frame(SEQUENCE, []), r);
    var b := [] + Encoding(INTEGER, r);
    m2 := Machine(capacity, [], [Frame(SEQUENCE, b)]);
    IntegerStep(m2, Frame(SEQUENCE, b), s);
    m3 := Machine(capacity, [], [Frame(SEQUENCE, b + Encoding(INTEGER, s))]);
    SignatureBuffer(r, s);
    SequenceEnd(m3, SignatureBody(r, s));
    EncodeSignatureItems(r, s);
  }

  lemma BodyLength(r: bytes, s: bytes)
    requires IntegerFits(r) && IntegerFits(s)
    ensures |SignatureBody(r, s)| <= |r| + |s| + 6 <= 102 && |r| <= 48 && |s| <= 48
  {
    hide Encoding;
    IntegerEncodingLength(r);
    IntegerEncodingLength(s);
  }

  /** The encoder calls of s_sign_message: none of them fails. */
  method WriteIntegers(capacity: nat, r: bytes, s: bytes) returns (der: bytes)
    requires IntegerFits(r) && IntegerFits(s) && |r| + |s| + 8 <= capacity
    ensures der == Encode(SignatureItems(r, s)) && der != []
  {
    hide Encode, Step, SignatureItems, IntegerFits;
    var encoder := new Encoder(capacity);
    ghost var m1, m2, m3 := SignatureSteps(capacity, r, s);
    encoder.Begin(SEQUENCE);
    var status := encoder.Write(Integer(r));
    assert status == DerEncoder.Success;
    status := encoder.Write(Integer(s));
    assert status == DerEncoder.Success;
    status := encoder.End();
    assert status == DerEncoder.Success;
    EncodeSignatureItems(r, s);
    var contents := encoder.GetContents();
    der := contents.value;
  }

  /** The DER half of s_sign_message. With s_signature_length bytes free no
      encoder call fails, and no more than that is appended. */
  method EncodeSignature(c: Curve, raw: bytes, out: ByteBuf) returns (ok: bool)
    requires RawFits(c, raw) && out.Valid()
    modifies out
    ensures out.Valid()
    ensures ok <==> out.capacity - |old(out.contents)| >= SignatureLength(c)
    ensures ok ==> out.contents == old(out.contents) + SignatureDer(raw) && |SignatureDer(raw)| <= SignatureLength(c)
    ensures !ok ==> out.contents == old(out.contents)
  {
    if out.capacity - |out.contents| < SignatureLength(c) {
      return false;
    }
    var n := |raw| / 2;
    assert n == CoordinateSize(c);
    hide Encode, SignatureItems, SignatureBody, TrimZeros, NonZero, IntegerFits;
    var r, s := TrimZeros(raw[..n]), TrimZeros(raw[n..]);
    TrimmedFits(c, raw[..n]);
    TrimmedFits(c, raw[n..]);
    EncodeSignatureItems(r, s);
    var der := WriteIntegers(out.capacity - |out.contents|, r, s);
    ok := out.Write(der);
  }

  lemma IntegerLength(r: bytes)
    requires IntegerFits(r)
    ensures |[] + Encoding(INTEGER, r)| <= |r| + 3
  {
    IntegerEncodingLength(r);
  }

  lemma SignatureBuffer(r: bytes, s: bytes)
    ensures [] + Encoding(INTEGER, r) + Encoding(INTEGER, s) == SignatureBody(r, s)
  {
  }

  // ---------------------------------------------------------------- verifying: DER to r || s

  /** The outcomes of decoding: the raw signature, an error, or the fatal
      assertion of s_append_coordinate. */
  datatype Decoded = Raw(signature: bytes) | MalformedAsn1 | ShortBuffer | FatalAssertion

  /** Appending one coordinate to what is already in the buffer. */
  function Appended(c: Curve, acc: bytes, v: bytes): Decoded {
    if |v| < CoordinateSize(c) && |acc| + CoordinateSize(c) - |v| > MAX_SIGNATURE_LENGTH then FatalAssertion
    else if |acc| + |Padded(v, CoordinateSize(c))| > MAX_SIGNATURE_LENGTH then ShortBuffer
    else Raw(acc + Padded(v, CoordinateSize(c)))
  }

  /** What a decoded list gives as a signature: the first three entries count. */
  function RawSignature(c: Curve, ts: seq<Tlv>): Decoded {
    if |ts| < 2 || ts[0].tag != SEQUENCE || ts[1].tag != INTEGER then MalformedAsn1
    else match Appended(c, [], ts[1].value)
      case Raw(r) =>
        if |ts| < 3 || ts[2].tag != INTEGER then MalformedAsn1 else Appended(c, r, ts[2].value)
      case failure => failure
  }

  /** s_append_coordinate */
  method AppendCoordinate(buf: ByteBuf, v: bytes, c: Curve) returns (failure: Option<Decoded>)
    requires buf.Valid() && buf.capacity == MAX_SIGNATURE_LENGTH
    modifies buf
    ensures buf.Valid()
    ensures match Appended(c, old(buf.contents), v)
            case Raw(s) => failure == None && buf.contents == s
            case f => failure == Some(f)
  {
    var n := CoordinateSize(c);
    ghost var acc := buf.contents;
    if |v| < n {
      if n - |v| + |buf.contents| > buf.capacity {
        return Some(FatalAssertion);
      }
      var _ := buf.Write(Repeat(0, n - |v|));
      Assoc(acc, Repeat(0, n - |v|), v);
    } else {
      AppendNothing(v, Repeat(0, 0));
    }
    var ok := buf.Write(v);
    return if ok then None else Some(ShortBuffer);
  }

  lemma RawIgnoresCounts(c: Curve, xs: seq<Tlv>, ys: seq<Tlv>)
    requires Uncounted(xs) == Uncounted(ys)
    ensures RawSignature(c, xs) == RawSignature(c, ys)
  {
    hide Appended;
    assert |xs| == |Uncounted(xs)| == |ys|;
    forall i | 0 <= i < |xs|
      ensures xs[i].tag == ys[i].tag && xs[i].value == ys[i].value
    {
      assert Uncounted(xs)[i] == Uncounted(ys)[i];
    }
  }

  /** The decoding half of s_verify_signature. */
  method DecodeSignature(c: Curve, signature: bytes) returns (r: FromDer<Decoded>)
    ensures r == match Parse(signature, 1)
                 case Forest(ns) => Read(RawSignature(c, Flatten(ns)))
                 case Malformed => NotDer
                 case OutOfBounds => BeyondInput
  {
    hide Parse, Flatten, Uncounted, Appended, Padded;
    var buf := new ByteBuf(MAX_SIGNATURE_LENGTH);
    var parsed, decoder := NewDecoder(signature);
    if parsed != Ok {
      return Failed(parsed);
    }
    RawIgnoresCounts(c, decoder.tlvs, Flatten(Parse(signature, 1).nodes));
    var more := decoder.Next();
    if !more || decoder.TlvType() != SEQUENCE {
      return Read(MalformedAsn1);
    }
    more := decoder.Next();
    if !more || decoder.TlvType() != INTEGER {
      return Read(MalformedAsn1);
    }
    var failure := AppendCoordinate(buf, decoder.TlvInteger().value, c);
    if failure.Some? {
      return Read(failure.value);
    }
    more := decoder.Next();
    if !more || decoder.TlvType() != INTEGER {
      return Read(MalformedAsn1);
    }
    failure := AppendCoordinate(buf, decoder.TlvInteger().value, c);
    if failure.Some? {
      return Read(failure.value);
    }
    return Read(Raw(buf.contents));
  }

  // ---------------------------------------------------------------- theorems

  ghost predicate IsSignature(ts: seq<Tlv>) {
    |ts| >= 3 && ts[0].tag == SEQUENCE && ts[1].tag == INTEGER && ts[2].tag == INTEGER
  }

  /** A signature has the width of the curve if and only if both integers fit;
      it is then the two unsigned integers in fixed-width form. */
  lemma RawIsFixedWidth(c: Curve, ts: seq<Tlv>)
    ensures var n, raw := CoordinateSize(c), RawSignature(c, ts);
            && (raw.Raw? ==> IsSignature(ts))
            && (IsSignature(ts) ==>
                  ((raw.Raw? && |raw.signature| == 2 * n) <==> (|ts[1].value| <= n && |ts[2].value| <= n)))
            && (IsSignature(ts) && |ts[1].value| <= n && |ts[2].value| <= n ==>
                  var r, s := FromBigEndian(ts[1].value), FromBigEndian(ts[2].value);
                  raw.signature == BigEndian(r, n) + BigEndian(s, n))
  {
    var n := CoordinateSize(c);
    hide Padded, BigEndian, FromBigEndian;
    if IsSignature(ts) {
      AppendNothing(Padded(ts[1].value, n), []);
      if |ts[1].value| <= n && |ts[2].value| <= n {
        PaddedIsFixedWidth(ts[1].value, n);
        PaddedIsFixedWidth(ts[2].value, n);
      }
    }
  }

  /** Integers of these lengths make the padding of the second run over. */
  predicate PaddingRunsOver(c: Curve, v: nat, w: nat) {
    var n := if c == P256 then 32 else 48;
    w < n && v <= 96 && (if v < n then n else v) + n - w > 96
  }

  /** The process is stopped by its assertion exactly when the first integer fits
      the buffer, and the padding of the second does not fit behind it. */
  lemma AbortsExactly(c: Curve, ts: seq<Tlv>)
    ensures RawSignature(c, ts) == FatalAssertion
       <==> IsSignature(ts) && PaddingRunsOver(c, |ts[1].value|, |ts[2].value|)
  {
    hide Padded;
    if IsSignature(ts) {
      AppendNothing(Padded(ts[1].value, CoordinateSize(c)), []);
    }
  }

  lemma ReportedSignature(r: bytes, s: bytes)
    requires Positive(r) && Positive(s)
    ensures var ts := Reported(SignatureItems(r, s));
            IsSignature(ts) && |ts| == 3 && ts[1].value == r && ts[2].value == s
  {
    var x := Container(SEQUENCE, [Integer(r), Integer(s)]);
    ReportedFirst([Integer(s)]);
    ReportedFirst([Integer(r), Integer(s)]);
    ReportedFirst([x]);
    assert [Integer(r), Integer(s)][1..] == [Integer(s)] && [x][1..] == [] && [Integer(s)][1..] == [];
    ReportedTags(x);
    ReportedTags(Integer(r));
    ReportedTags(Integer(s));
    IntegersKeepTheirValue(r);
    IntegersKeepTheirValue(s);
    hide Reported, ReportedItem, Encode;
    ReportedNothing();
  }

  lemma ReportedNothing()
    ensures Reported([]) == []
  {
  }

  lemma ReportedFirst(xs: seq<Item>)
    requires xs != []
    ensures Reported(xs)
         == [ReportedItem(xs[0])] + (if xs[0].Container? then Reported(xs[0].items) else []) + Reported(xs[1..])
  {
    hide ReportedItem;
  }

  lemma ReportedTags(x: Item)
    ensures ReportedItem(x).tag == ItemTag(x)
  {
  }

  lemma SignatureIsLegal(r: bytes, s: bytes)
    requires Positive(r) && Positive(s)
    ensures Legal(SignatureItems(r, s)) && Depth(SignatureItems(r, s)) == 1
  {
    var x, ys := Container(SEQUENCE, [Integer(r), Integer(s)]), [Integer(r), Integer(s)];
    assert Legal([]) && Depth([]) == 0;
    assert ys[1..] == [Integer(s)] && [Integer(s)][1..] == [] && [x][1..] == [];
    assert Legal([Integer(s)]) && Depth([Integer(s)]) == 0;
    assert Legal(ys) && Depth(ys) == 0;
  }

  /** Signing and verifying agree: the DER form of any raw signature decodes to
      that raw signature. */
  lemma SignatureReadsBack(c: Curve, raw: bytes)
    requires RawFits(c, raw)
    ensures var der := SignatureDer(raw);
            Parse(der, 1).Forest? && RawSignature(c, Flatten(Parse(der, 1).nodes)) == Raw(raw)
  {
    var n := CoordinateSize(c);
    assert |raw| / 2 == n;
    var x, y := raw[..n], raw[n..];
    var r, s := TrimZeros(x), TrimZeros(y);
    assert SignatureDer(raw) == Encode(SignatureItems(r, s));
    Rejoin(raw, n);
    TrimmedFits(c, x);
    TrimmedFits(c, y);
    BodyLength(r, s);
    hide *;
    EncodeSignatureItems(r, s);
    SignatureIsLegal(r, s);
    SmallEncoding(SignatureItems(r, s));
    ReportedSignature(r, s);
    PadOfTrim(x);
    PadOfTrim(y);
    JoinedRaw(c, Reported(SignatureItems(r, s)), x, y);
  }

  lemma SmallEncoding(xs: seq<Item>)
    requires Legal(xs) && |Encode(xs)| < UINT32_RANGE && Depth(xs) == 1
    ensures Parse(Encode(xs), 1).Forest? && Flatten(Parse(Encode(xs), 1).nodes) == Reported(xs)
  {
    EncodingReadsBack(xs);
  }

  lemma JoinedRaw(c: Curve, ts: seq<Tlv>, x: bytes, y: bytes)
    requires IsSignature(ts) && |x| == CoordinateSize(c) == |y|
    requires Padded(ts[1].value, |x|) == x && Padded(ts[2].value, |y|) == y
    ensures RawSignature(c, ts) == Raw(x + y)
  {
    hide Padded;
    AppendNothing(x, []);
  }

  /** The same on the octets: a signature of any two positive integers stops the
      process exactly when their lengths make the padding run over. */
  lemma SignatureAborts(c: Curve, r: bytes, s: bytes)
    requires Positive(r) && Positive(s)
    ensures var der := Encode(SignatureItems(r, s));
            && Parse(der, 1).Forest?
            && (RawSignature(c, Flatten(Parse(der, 1).nodes)) == FatalAssertion <==> PaddingRunsOver(c, |r|, |s|))
  {
    hide Encode, SignatureItems, SignatureBody, Parse, Flatten, Reported, Depth, Legal, RawSignature, PaddingRunsOver;
    EncodeAnySignature(r, s);
    SignatureIsLegal(r, s);
    SmallEncoding(SignatureItems(r, s));
    ReportedSignature(r, s);
    AbortsExactly(c, Reported(SignatureItems(r, s)));
  }

  /** Such a signature: integers of 70 and of 1 byte on P-256. */
  lemma SignatureThatAborts()
    ensures var der := Encode(SignatureItems(Repeat(1, 70), [1]));
            Parse(der, 1).Forest? && RawSignature(P256, Flatten(Parse(der, 1).nodes)) == FatalAssertion
  {
    hide Encode, SignatureItems, Parse, Flatten, RawSignature;
    SignatureAborts(P256, Repeat(1, 70), [1]);
  }

  /** Any signature of two integers without leading zeros that fit the curve, as
      decoded, is encoded to the same octets again. */
  lemma CanonicalSignatureComesBack(c: Curve, r: bytes, s: bytes)
    requires IntegerFits(r) && IntegerFits(s) && |r| <= CoordinateSize(c) && |s| <= CoordinateSize(c)
    ensures var raw := RawSignature(c, Reported(SignatureItems(r, s)));
            raw.Raw? && SignatureDer(raw.signature) == Encode(SignatureItems(r, s))
  {
    hide Encode, Reported, SignatureItems;
    var n := CoordinateSize(c);
    var x, y := Padded(r, n), Padded(s, n);
    ReportedSignature(r, s);
    JoinedRaw(c, Reported(SignatureItems(r, s)), x, y);
    Halves(x, y);
    assert |x + y| / 2 == n;
    TrimOfPad(r, n);
    TrimOfPad(s, n);
    hide Padded, RawSignature;
  }

  /** The integers are the shortest positive ones with the right value, as
      section 8.3 of ITU-T X.690 demands. */
  lemma IntegersAreMinimal(v: bytes)
    requires NonZero(v)
    ensures var o := Content(INTEGER, TrimZeros(v));
            && o != [] && o[0] < 0x80
            && (|o| > 1 && o[0] == 0 ==> o[1] >= 0x80)
            && FromBigEndian(o) == FromBigEndian(v)
  {
    var t := TrimZeros(v);
    TrimNonZero(v);
    PadOfTrim(v);
    PadKeepsValue(t, |v|);
    if t[0] >= 0x80 {
      LeadingZero(t);
    } else {
      AppendNothing(t, []);
    }
    hide FromBigEndian, Padded, TrimZeros, NonZero;
  }

  /** Both conversions in a row, on any output buffer with room. */
  method SignAndDecode(c: Curve, raw: bytes, out: ByteBuf) returns (r: FromDer<Decoded>)
    requires RawFits(c, raw) && out.Valid() && out.capacity - |out.contents| >= SignatureLength(c)
    modifies out
    ensures r == Read(Raw(raw))
    ensures old(out.contents) <= out.contents && out.Valid()
  {
    hide RawFits, SignatureDer, Parse, Flatten, RawSignature;
    var start := |out.contents|;
    var ok := EncodeSignature(c, raw, out);
    Halves(old(out.contents), SignatureDer(raw));
    SignatureReadsBack(c, raw);
    r := DecodeSignature(c, out.contents[start..]);
  }
}
