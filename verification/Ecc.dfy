/** Loading an ECC key pair from a decoded DER list (source/ecc.c): the curves,
    their object identifiers, and how the loader tells keys apart by length. */
module Ecc {
  import opened Bytes
  import opened DerSyntax
  import opened DerList
  import opened DerDecoder
  import opened DerDocument

  // ---------------------------------------------------------------- curves

  datatype Curve = P256 | P384

  const P256_OID: bytes := [0x2a, 0x86, 0x48, 0xce, 0x3d, 0x03, 0x01, 0x07]
  const P384_OID: bytes := [0x2b, 0x81, 0x04, 0x00, 0x22]

  /** aws_ecc_curve_name_from_oid */
  function CurveFromOid(oid: bytes): (r: Option<Curve>)
    ensures forall c :: r == Some(c) <==> oid == OidFromCurve(c)
  {
    if oid == P256_OID then Some(P256) else if oid == P384_OID then Some(P384) else None
  }

  /** aws_ecc_oid_from_curve_name */
  function OidFromCurve(c: Curve): bytes {
    match c
    case P256 => P256_OID
    case P384 => P384_OID
  }

  /** aws_ecc_key_coordinate_byte_size_from_curve_name */
  function CoordinateSize(c: Curve): nat {
    match c
    case P256 => 32
    case P384 => 48
  }

  /** The two curves: their identifiers 1.2.840.10045.3.1.7 and 1.3.132.0.34 in
      octets, and the bytes of a coordinate. */
  lemma CurvesAre()
    ensures CurveFromOid([0x2a, 0x86, 0x48, 0xce, 0x3d, 0x03, 0x01, 0x07]) == Some(P256)
    ensures CurveFromOid([0x2b, 0x81, 0x04, 0x00, 0x22]) == Some(P384)
    ensures CoordinateSize(P256) == 32 && CoordinateSize(P384) == 48
  {
  }

  // ---------------------------------------------------------------- what the loader looks at

  predicate IsString(t: Tlv) {
    t.tag == BIT_STRING || t.tag == OCTET_STRING
  }

  /** The values of the BIT and OCTET STRINGs, in order. */
  function Strings(ts: seq<Tlv>): seq<bytes> {
    if ts == [] then []
    else Strings(ts[..|ts| - 1]) + if IsString(ts[|ts| - 1]) then [ts[|ts| - 1].value] else []
  }

  /** The last object identifier that names a known curve. */
  function LastCurve(ts: seq<Tlv>): Option<Curve> {
    if ts == [] then None
    else
      var t := ts[|ts| - 1];
      if t.tag == OBJECT_IDENTIFIER && CurveFromOid(t.value).Some? then CurveFromOid(t.value)
      else LastCurve(ts[..|ts| - 1])
  }

  lemma LooksAtNothing()
    ensures Strings([]) == [] && LastCurve([]) == None
  {
  }

  lemma LooksAtOneMore(ts: seq<Tlv>, k: nat)
    requires k < |ts|
    ensures Strings(ts[..k + 1]) == Strings(ts[..k]) + if IsString(ts[k]) then [ts[k].value] else []
    ensures LastCurve(ts[..k + 1])
         == if ts[k].tag == OBJECT_IDENTIFIER && CurveFromOid(ts[k].value).Some? then CurveFromOid(ts[k].value)
            else LastCurve(ts[..k])
  {
    hide CurveFromOid;
    assert ts[..k + 1][..k] == ts[..k];
  }

  lemma {:induction false} LooksAtBoth(xs: seq<Tlv>, ys: seq<Tlv>)
    ensures Strings(xs + ys) == Strings(xs) + Strings(ys)
    ensures LastCurve(xs + ys) == if LastCurve(ys).Some? then LastCurve(ys) else LastCurve(xs)
    decreases |ys|
  {
    hide CurveFromOid, Strings, LastCurve;
    if ys == [] {
      AppendNothing(xs, ys);
      LooksAtNothing();
    } else {
      var k, zs := |ys| - 1, xs + ys;
      assert zs[..|xs| + k] == xs + ys[..k] && zs[..|xs| + k + 1] == zs && ys[..k + 1] == ys;
      LooksAtBoth(xs, ys[..k]);
      LooksAtOneMore(ys, k);
      LooksAtOneMore(zs, |xs| + k);
    }
  }

  /** An entry that names a curve. */
  predicate NamesCurve(t: Tlv) {
    t.tag == 0x06 && CurveFromOid(t.value).Some?
  }

  lemma LooksAtLast(ts: seq<Tlv>)
    requires ts != []
    ensures var k := |ts| - 1;
            && Strings(ts) == Strings(ts[..k]) + (if IsString(ts[k]) then [ts[k].value] else [])
            && LastCurve(ts) == (if NamesCurve(ts[k]) then CurveFromOid(ts[k].value) else LastCurve(ts[..k]))
            && Count(ts) == Count(ts[..k]) + (if IsString(ts[k]) then 1 else 0)
  {
    hide CurveFromOid;
  }

  /** The curve is the one named last, by position in the list ... */
  lemma {:induction false} LastCurveAt(ts: seq<Tlv>, i: nat)
    requires i < |ts| && NamesCurve(ts[i]) && forall j :: i < j < |ts| ==> !NamesCurve(ts[j])
    ensures LastCurve(ts) == CurveFromOid(ts[i].value)
    decreases |ts|
  {
    hide *;
    LooksAtLast(ts);
    var k := |ts| - 1;
    if i < k {
      LastCurveAt(ts[..k], i);
    }
  }

  /** ... and there is none if and only if none is named. */
  lemma {:induction false} NoCurveIffNoneNamed(ts: seq<Tlv>)
    ensures LastCurve(ts).None? <==> forall i :: 0 <= i < |ts| ==> !NamesCurve(ts[i])
    decreases |ts|
  {
    if ts == [] {
      LooksAtNothing();
    } else {
      var k := |ts| - 1;
      assert NamesCurve(ts[k]) ==> CurveFromOid(ts[k].value).Some?;
      hide *;
      LooksAtLast(ts);
      NoCurveIffNoneNamed(ts[..k]);
      if LastCurve(ts).None? {
        forall i | 0 <= i < |ts|
          ensures !NamesCurve(ts[i])
        {
          if i < k {
            assert !NamesCurve(ts[..k][i]);
          }
        }
      }
    }
  }

  /** The strings are the values of the entries with tag 3 or 4, as many as there
      are; the first is that of the first such entry ... */
  lemma {:induction false} FirstStringAt(ts: seq<Tlv>, i: nat)
    requires i < |ts| && IsString(ts[i]) && forall j :: 0 <= j < i ==> !IsString(ts[j])
    ensures Strings(ts) != [] && Strings(ts)[0] == ts[i].value
    decreases |ts|
  {
    hide *;
    LooksAtLast(ts);
    var k := |ts| - 1;
    if i < k {
      FirstStringAt(ts[..k], i);
    } else {
      NoStrings(ts[..k]);
      AppendNothing([ts[k].value], Strings(ts[..k]));
    }
  }

  /** ... and the last that of the last. */
  lemma {:induction false} LastStringAt(ts: seq<Tlv>, i: nat)
    requires i < |ts| && IsString(ts[i]) && forall j :: i < j < |ts| ==> !IsString(ts[j])
    ensures Strings(ts) != [] && Strings(ts)[|Strings(ts)| - 1] == ts[i].value
    decreases |ts|
  {
    hide *;
    LooksAtLast(ts);
    var k := |ts| - 1;
    if i < k {
      LastStringAt(ts[..k], i);
      AppendNothing(Strings(ts[..k]), []);
    }
  }

  lemma {:induction false} NoStrings(ts: seq<Tlv>)
    requires forall j :: 0 <= j < |ts| ==> !IsString(ts[j])
    ensures Strings(ts) == []
    decreases |ts|
  {
    hide *;
    if ts == [] {
      LooksAtNothing();
    } else {
      LooksAtLast(ts);
      NoStrings(ts[..|ts| - 1]);
      AppendNothing(Strings(ts[..|ts| - 1]), []);
    }
  }

  lemma {:induction false} StringsCounted(ts: seq<Tlv>)
    ensures |Strings(ts)| == Count(ts)
    decreases |ts|
  {
    if ts != [] {
      hide *;
      LooksAtLast(ts);
      StringsCounted(ts[..|ts| - 1]);
    }
  }

  /** How many entries have tag 3 or 4. */
  function Count(ts: seq<Tlv>): nat {
    if ts == [] then 0
    else Count(ts[..|ts| - 1]) + if ts[|ts| - 1].tag == 0x03 || ts[|ts| - 1].tag == 0x04 then 1 else 0
  }

  /** The first string, and the last one after it. */
  function FirstPart(ss: seq<bytes>): bytes {
    if ss == [] then [] else ss[0]
  }

  function SecondPart(ss: seq<bytes>): bytes {
    if |ss| < 2 then [] else ss[|ss| - 1]
  }

  /** Of two parts the one with the given length, the second being preferred. */
  function Pick(p1: bytes, p2: bytes, len: nat): (r: Option<bytes>)
    ensures r.Some? ==> |r.value| == len
  {
    if |p2| == len then Some(p2) else if |p1| == len then Some(p1) else None
  }

  datatype KeyParts = KeyParts(curve: Curve, x: bytes, y: bytes, d: bytes)

  datatype LoadResult = Loaded(keys: KeyParts) | UnknownObjectIdentifier | MissingRequiredKeyComponent

  /** What the decoded list is worth: a private key has the size of a coordinate,
      a public key that of two coordinates and the form byte in front. */
  function Load(ts: seq<Tlv>): LoadResult {
    if LastCurve(ts).None? then UnknownObjectIdentifier
    else
      var c := LastCurve(ts).value;
      var n := CoordinateSize(c);
      var p1, p2 := FirstPart(Strings(ts)), SecondPart(Strings(ts));
      var priv, pub := Pick(p1, p2, n), Pick(p1, p2, 2 * n + 1);
      if priv.None? && pub.None? then MissingRequiredKeyComponent
      else
        Loaded(KeyParts(c,
          if pub.Some? then pub.value[1..n + 1] else [],
          if pub.Some? then pub.value[n + 1..] else [],
          if priv.Some? then priv.value else []))
  }

  /** What any loaded key pair looks like. */
  lemma LoadedShape(ts: seq<Tlv>)
    requires Load(ts).Loaded?
    ensures var k := Load(ts).keys;
            var n := CoordinateSize(k.curve);
            && LastCurve(ts) == Some(k.curve)
            && (k.d == [] || |k.d| == n)
            && ((k.x == [] && k.y == []) || (|k.x| == n && |k.y| == n))
            && (k.d != [] || k.x != [])
            && (k.d != [] ==> k.d in Strings(ts))
            && (k.x != [] ==> exists s :: s in Strings(ts) && |s| == 2 * n + 1 && s[1..] == k.x + k.y)
  {
    hide Strings, LastCurve;
    var k := Load(ts).keys;
    var n := CoordinateSize(k.curve);
    var pub := Pick(FirstPart(Strings(ts)), SecondPart(Strings(ts)), 2 * n + 1);
    if pub.Some? {
      BehindFormByte(pub.value, n);
      assert pub.value in Strings(ts);
    }
  }

  /** Without a named curve nothing loads, and that is when the identifier is
      reported unknown. */
  lemma UnknownExactly(ts: seq<Tlv>)
    ensures Load(ts) == UnknownObjectIdentifier <==> forall i :: 0 <= i < |ts| ==> !NamesCurve(ts[i])
  {
    NoCurveIffNoneNamed(ts);
    hide Strings, LastCurve, NamesCurve, FirstPart, SecondPart, Pick;
  }

  /** With one, a list loads if and only if its first string, or the last of
      several, has the size of a private or of a public key of that curve. */
  lemma LoadsExactly(ts: seq<Tlv>, c: Curve, one: bytes, two: bytes, n: nat)
    requires LastCurve(ts) == Some(c) && n == if c == P256 then 32 else 48
    requires one == if Strings(ts) == [] then [] else Strings(ts)[0]
    requires two == if |Strings(ts)| < 2 then [] else Strings(ts)[|Strings(ts)| - 1]
    ensures Load(ts).Loaded? <==> |one| == n || |one| == 2 * n + 1 || |two| == n || |two| == 2 * n + 1
    ensures !Load(ts).Loaded? ==> Load(ts) == MissingRequiredKeyComponent
    ensures Load(ts).Loaded? ==>
              var k := Load(ts).keys;
              && k.curve == c
              && k.d == (if |two| == n then two else if |one| == n then one else [])
              && (|two| == 2 * n + 1 ==> two[1..] == k.x + k.y)
              && (|two| != 2 * n + 1 && |one| == 2 * n + 1 ==> one[1..] == k.x + k.y)
              && (if |two| == 2 * n + 1 || |one| == 2 * n + 1 then |k.x| == n && |k.y| == n else k.x == [] && k.y == [])
  {
    hide Strings, LastCurve;
    if |one| == 2 * n + 1 {
      BehindFormByte(one, n);
    }
    if |two| == 2 * n + 1 {
      BehindFormByte(two, n);
    }
  }

  lemma BehindFormByte(p: bytes, n: nat)
    requires |p| == 2 * n + 1
    ensures p[1..] == p[1..n + 1] + p[n + 1..]
  {
  }

  /** The loop over the list: the strings that may be keys, and the curve. */
  method FindParts(decoder: Decoder) returns (part1: bytes, part2: bytes, curve: Option<Curve>)
    requires -1 <= decoder.tlvIdx < |decoder.tlvs|
    modifies decoder`tlvIdx
    ensures var ts := old(decoder.tlvs[decoder.tlvIdx + 1..]);
            && part1 == FirstPart(Strings(ts)) && part2 == SecondPart(Strings(ts))
            && curve == LastCurve(ts)
  {
    hide CurveFromOid, Strings, LastCurve;
    part1, part2, curve := [], [], None;
    var first := true;
    LooksAtNothing();
    ghost var ts, k := decoder.tlvs[decoder.tlvIdx + 1..], 0;
    var more := decoder.Next();
    while more
      invariant 0 <= k <= |ts| && decoder.tlvIdx == old(decoder.tlvIdx) + 1 + k
      invariant more <==> k < |ts|
      invariant curve == LastCurve(ts[..k])
      invariant part1 == FirstPart(Strings(ts[..k])) && part2 == SecondPart(Strings(ts[..k]))
      invariant first <==> Strings(ts[..k]) == []
      decreases |ts| - k
    {
      assert decoder.tlvs[decoder.tlvIdx] == ts[k];
      LooksAtOneMore(ts, k);
      var tag := decoder.TlvType();
      if tag == OBJECT_IDENTIFIER {
        var found := CurveFromOid(decoder.TlvBlob());
        if found.Some? {
          curve := found;
        }
      } else if tag == BIT_STRING || tag == OCTET_STRING {
        if first {
          part1 := decoder.TlvString().value;
          first := false;
        } else {
          part2 := decoder.TlvString().value;
        }
      }
      k := k + 1;
      more := decoder.Next();
    }
    assert ts[..k] == ts;
  }

  /** aws_der_decoder_load_ecc_key_pair. On failure all three outputs are empty. */
  method LoadKeyPair(decoder: Decoder)
    returns (status: LoadResult, x: bytes, y: bytes, d: bytes, curve: Option<Curve>)
    requires -1 <= decoder.tlvIdx < |decoder.tlvs|
    modifies decoder`tlvIdx
    ensures status == Load(old(decoder.tlvs[decoder.tlvIdx + 1..]))
    ensures status.Loaded? ==> Some(status.keys.curve) == curve && status.keys == KeyParts(curve.value, x, y, d)
    ensures !status.Loaded? ==> x == [] && y == [] && d == []
  {
    hide Strings, LastCurve, FirstPart, SecondPart;
    x, y, d := [], [], [];
    var part1, part2;
    part1, part2, curve := FindParts(decoder);
    if curve.None? {
      return UnknownObjectIdentifier, x, y, d, curve;
    }
    var n := CoordinateSize(curve.value);
    var priv, pub: Option<bytes> := None, None;
    if |part1| > 0 {
      if |part1| == n {
        priv := Some(part1);
      } else if |part1| == 2 * n + 1 {
        pub := Some(part1);
      }
    }
    if |part2| > 0 {
      if |part2| == n {
        priv := Some(part2);
      } else if |part2| == 2 * n + 1 {
        pub := Some(part2);
      }
    }
    if priv.None? && pub.None? {
      return MissingRequiredKeyComponent, x, y, d, curve;
    }
    if priv.Some? {
      d := priv.value;
    }
    if pub.Some? {
      x, y := pub.value[1..n + 1], pub.value[n + 1..];
    }
    return Loaded(KeyParts(curve.value, x, y, d)), x, y, d, curve;
  }

  // ---------------------------------------------------------------- standard key formats

  function Leaf(tag: byte, body: bytes): Node {
    Prim(tag, FormFor(|body|), body, 0)
  }

  function Branch(tag: byte, children: seq<Node>, newlines: nat): Node {
    Cons(tag, FormFor(|Print(children)|), children, newlines)
  }

  const EC_PUBLIC_KEY_OID: bytes := [0x2a, 0x86, 0x48, 0xce, 0x3d, 0x02, 0x01]
  const UNCOMPRESSED: byte := 0x04

  predicate Fits(c: Curve, v: bytes) {
    |v| == CoordinateSize(c)
  }

  function PublicBits(x: bytes, y: bytes): bytes {
    [0, UNCOMPRESSED] + x + y
  }

  /** ECPrivateKey of section 3 of RFC 5915: version, private key, curve, public
      key. */
  function Rfc5915(c: Curve, d: bytes, x: bytes, y: bytes, newlines: nat): Node {
    Branch(SEQUENCE, [
      Leaf(INTEGER, [1]),
      Leaf(OCTET_STRING, d),
      Branch(0xa0, [Leaf(OBJECT_IDENTIFIER, OidFromCurve(c))], 0),
      Branch(0xa1, [Leaf(BIT_STRING, PublicBits(x, y))], 0)
    ], newlines)
  }

  /** The same without the optional public key. */
  function Rfc5915Private(c: Curve, d: bytes, newlines: nat): Node {
    Branch(SEQUENCE, [
      Leaf(INTEGER, [1]),
      Leaf(OCTET_STRING, d),
      Branch(0xa0, [Leaf(OBJECT_IDENTIFIER, OidFromCurve(c))], 0)
    ], newlines)
  }

  /** SubjectPublicKeyInfo of section 2 of RFC 5480: algorithm and curve, public
      key. */
  function Rfc5480(c: Curve, x: bytes, y: bytes, newlines: nat): Node {
    Branch(SEQUENCE, [
      Branch(SEQUENCE, [Leaf(OBJECT_IDENTIFIER, EC_PUBLIC_KEY_OID), Leaf(OBJECT_IDENTIFIER, OidFromCurve(c))], 0),
      Leaf(BIT_STRING, PublicBits(x, y))
    ], newlines)
  }

  /** A well-formed forest: how long it may be, the strings and the curve that
      the loader finds in it, and how deep it is nested. */
  ghost predicate Piece(ns: seq<Node>, bound: nat, ss: seq<bytes>, c: Option<Curve>, depth: nat) {
    && WellFormed(ns) && |Print(ns)| <= bound
    && Strings(Flatten(ns)) == ss && LastCurve(Flatten(ns)) == c
    && Nesting(ns) == depth
  }

  lemma FlattenSplit(n: Node, ns: seq<Node>)
    ensures Flatten([n] + ns) == Flatten([n]) + Flatten(ns)
    ensures Flatten([n]) == FlattenNode(n)
  {
    FlattenFirst([n] + ns);
    FlattenFirst([n]);
    assert ([n] + ns)[1..] == ns && [n][1..] == [];
    AppendNothing(FlattenNode(n), Flatten([]));
  }

  lemma LooksAtOne(t: Tlv)
    ensures Strings([t]) == if IsString(t) then [t.value] else []
    ensures LastCurve([t]) == if t.tag == OBJECT_IDENTIFIER then CurveFromOid(t.value) else None
  {
    assert [t][..0] == [];
    LooksAtOneMore([t], 0);
    LooksAtNothing();
    assert [t][..1] == [t];
  }

  lemma PieceMore(n: Node, ns: seq<Node>, bound: nat, ss: seq<bytes>, c: Option<Curve>, depth: nat,
                  bound': nat, ss': seq<bytes>, c': Option<Curve>, depth': nat)
    requires Piece([n], bound, ss, c, depth) && Piece(ns, bound', ss', c', depth')
    requires ns != [] ==> ns[0].tag != NEWLINE
    ensures Piece([n] + ns, bound + bound', ss + ss', if c'.Some? then c' else c, DerSyntax.Max(depth, depth'))
  {
    hide Print, FormFits, BodyOk, Constructed, Flatten, Strings, LastCurve;
    PrintAppend([n], ns);
    FlattenSplit(n, ns);
    LooksAtBoth(Flatten([n]), Flatten(ns));
    assert ([n] + ns)[1..] == ns && ([n] + ns)[0] == n;
    assert WellFormed([n]) && Nesting([n][1..]) == 0;
  }

  lemma LeafIsWellFormed(tag: byte, body: bytes)
    requires !Constructed(tag) && BodyOk(tag, body) && |body| < 1000
    ensures var ns := [Leaf(tag, body)];
            WellFormed(ns) && |Print(ns)| <= |body| + 6 && Nesting(ns) == 0
  {
    PrintOne(Leaf(tag, body));
    assert WellFormed([Leaf(tag, body)][1..]);
  }

  lemma PieceLeaf(tag: byte, body: bytes)
    requires !Constructed(tag) && BodyOk(tag, body) && |body| < 1000
    ensures Piece([Leaf(tag, body)], |body| + 6,
                  if tag == BIT_STRING || tag == OCTET_STRING then [DecodedValue(tag, body)] else [],
                  if tag == OBJECT_IDENTIFIER then CurveFromOid(body) else None, 0)
  {
    LeafIsWellFormed(tag, body);
    FlattenSplit(Leaf(tag, body), []);
    assert FlattenNode(Leaf(tag, body)) == [NewEntry(tag, body)];
    LooksAtOne(NewEntry(tag, body));
    hide WellFormed, Print, Nesting, Flatten, Strings, LastCurve;
  }

  lemma BranchIsWellFormed(tag: byte, ns: seq<Node>, newlines: nat)
    requires Constructed(tag) && WellFormed(ns) && |Print(ns)| < 1000
    ensures var ms := [Branch(tag, ns, newlines)];
            && WellFormed(ms) && |Print(ms)| <= |Print(ns)| + 6 + newlines
            && Nesting(ms) == 1 + Nesting(ns)
  {
    var n := Branch(tag, ns, newlines);
    PrintFirst([n]);
    assert [n][1..] == [];
    assert WellFormed([n][1..]) && Nesting([n][1..]) == 0;
    assert |Print([n])| == |PrintedElement(n)|;
  }

  lemma BranchLooks(tag: byte, ns: seq<Node>, newlines: nat)
    requires Constructed(tag)
    ensures var ms := [Branch(tag, ns, newlines)];
            && Strings(Flatten(ms)) == Strings(Flatten(ns))
            && LastCurve(Flatten(ms)) == LastCurve(Flatten(ns))
  {
    var n := Branch(tag, ns, newlines);
    FlattenSplit(n, []);
    assert Entry(n).tag == tag && FlattenNode(n) == [Entry(n)] + Flatten(ns);
    assert !IsString(Entry(n)) && Entry(n).tag != OBJECT_IDENTIFIER;
    hide *;
    LooksAtOne(Entry(n));
    LooksAtBoth([Entry(n)], Flatten(ns));
    AppendNothing(Strings(Flatten(ns)), []);
  }

  lemma PieceBranch(tag: byte, ns: seq<Node>, newlines: nat, bound: nat, ss: seq<bytes>, c: Option<Curve>, depth: nat)
    requires Constructed(tag) && Piece(ns, bound, ss, c, depth) && bound < 1000
    ensures Piece([Branch(tag, ns, newlines)], bound + 6 + newlines, ss, c, depth + 1)
  {
    hide WellFormed, Print, Nesting, Flatten, Strings, LastCurve, Branch, Constructed;
    BranchIsWellFormed(tag, ns, newlines);
    BranchLooks(tag, ns, newlines);
  }

  lemma PublicLeaf(c: Curve, x: bytes, y: bytes)
    requires Fits(c, x) && Fits(c, y)
    ensures Piece([Leaf(BIT_STRING, PublicBits(x, y))], 104, [PublicBlob(x, y)], None, 0)
  {
    var body := PublicBits(x, y);
    assert body[1..] == PublicBlob(x, y);
    PieceLeaf(BIT_STRING, body);
    hide WellFormed, Nesting, Print, Flatten, Strings, LastCurve;
  }

  function PublicBlob(x: bytes, y: bytes): bytes {
    [UNCOMPRESSED] + x + y
  }

  lemma CurveLeaf(c: Curve)
    ensures Piece([Leaf(OBJECT_IDENTIFIER, OidFromCurve(c))], 14, [], Some(c), 0)
  {
    PieceLeaf(OBJECT_IDENTIFIER, OidFromCurve(c));
    hide WellFormed, Nesting, Print, Flatten, Strings, LastCurve;
  }

  lemma SequenceIsConstructed()
    ensures Constructed(SEQUENCE) && Constructed(0xa0) && Constructed(0xa1)
  {
  }

  lemma LeafTag(tag: byte, body: bytes)
    ensures Leaf(tag, body).tag == tag
  {
  }

  lemma BranchTag(tag: byte, ns: seq<Node>, newlines: nat)
    ensures Branch(tag, ns, newlines).tag == tag
  {
  }

  /** Two elements in a sequence. */
  lemma PairParts(m: Node, n: Node, newlines: nat, bound: nat, ss: seq<bytes>, c: Option<Curve>, depth: nat,
                  bound': nat, ss': seq<bytes>, c': Option<Curve>, depth': nat)
    requires Piece([m], bound, ss, c, depth) && Piece([n], bound', ss', c', depth')
    requires n.tag != NEWLINE && bound + bound' < 1000
    ensures Piece([Branch(SEQUENCE, [m, n], newlines)], bound + bound' + 6 + newlines, ss + ss',
                  if c'.Some? then c' else c, DerSyntax.Max(depth, depth') + 1)
  {
    hide *;
    PieceMore(m, [n], bound, ss, c, depth, bound', ss', c', depth');
    assert [m] + [n] == [m, n];
    SequenceIsConstructed();
    PieceBranch(SEQUENCE, [m, n], newlines, bound + bound', ss + ss', if c'.Some? then c' else c,
                DerSyntax.Max(depth, depth'));
  }

  lemma AlgorithmParts(c: Curve)
    ensures Piece([Branch(SEQUENCE, [Leaf(OBJECT_IDENTIFIER, EC_PUBLIC_KEY_OID), Leaf(OBJECT_IDENTIFIER, OidFromCurve(c))], 0)],
                  33, [], Some(c), 1)
  {
    var alg, oid := Leaf(OBJECT_IDENTIFIER, EC_PUBLIC_KEY_OID), Leaf(OBJECT_IDENTIFIER, OidFromCurve(c));
    NoCurveLeaf();
    CurveLeaf(c);
    LeafTag(OBJECT_IDENTIFIER, OidFromCurve(c));
    hide Piece, Leaf, Branch;
    var z: seq<bytes> := [];
    assert z + z == [];
    PairParts(alg, oid, 0, 13, z, None, 0, 14, z, Some(c), 0);
  }

  lemma NoCurveLeaf()
    ensures Piece([Leaf(OBJECT_IDENTIFIER, EC_PUBLIC_KEY_OID)], 13, [], None, 0)
  {
    PieceLeaf(OBJECT_IDENTIFIER, EC_PUBLIC_KEY_OID);
    hide WellFormed, Nesting, Print, Flatten, Strings, LastCurve;
  }

  lemma PublicKeyInfoParts(c: Curve, x: bytes, y: bytes, newlines: nat)
    requires Fits(c, x) && Fits(c, y)
    ensures Piece([Rfc5480(c, x, y, newlines)], 143 + newlines, [PublicBlob(x, y)], Some(c), 2)
  {
    hide Piece, Leaf, Branch, Constructed, PublicBlob, PublicBits, OidFromCurve;
    var alg, oid := Leaf(OBJECT_IDENTIFIER, EC_PUBLIC_KEY_OID), Leaf(OBJECT_IDENTIFIER, OidFromCurve(c));
    var info, key := Branch(SEQUENCE, [alg, oid], 0), Leaf(BIT_STRING, PublicBits(x, y));
    AlgorithmParts(c);
    PublicLeaf(c, x, y);
    LeafTag(BIT_STRING, PublicBits(x, y));
    PairParts(info, key, newlines, 33, [], Some(c), 1, 104, [PublicBlob(x, y)], None, 0);
    assert [] + [PublicBlob(x, y)] == [PublicBlob(x, y)];
  }

  /** The four elements of a private key in a sequence. */
  lemma QuadParts(version: Node, priv: Node, a0: Node, a1: Node, newlines: nat, c: Curve, d: bytes, blob: bytes)
    requires Piece([version], 7, [], None, 0) && Piece([priv], 54, [d], None, 0)
    requires Piece([a0], 20, [], Some(c), 1) && Piece([a1], 110, [blob], None, 1)
    requires priv.tag != NEWLINE && a0.tag != NEWLINE && a1.tag != NEWLINE
    ensures Piece([Branch(SEQUENCE, [version, priv, a0, a1], newlines)], 197 + newlines, [d, blob], Some(c), 2)
  {
    hide *;
    TailParts(priv, a0, a1, c, d, blob);
    PieceMore(version, [priv, a0, a1], 7, [], None, 0, 184, [d, blob], Some(c), 1);
    assert [version] + [priv, a0, a1] == [version, priv, a0, a1];
    AppendNothing([d, blob], []);
    Maxima();
    SequenceIsConstructed();
    PieceBranch(SEQUENCE, [version, priv, a0, a1], newlines, 191, [d, blob], Some(c), 1);
  }

  lemma TailParts(priv: Node, a0: Node, a1: Node, c: Curve, d: bytes, blob: bytes)
    requires Piece([priv], 54, [d], None, 0) && Piece([a0], 20, [], Some(c), 1) && Piece([a1], 110, [blob], None, 1)
    requires a0.tag != NEWLINE && a1.tag != NEWLINE
    ensures Piece([priv, a0, a1], 184, [d, blob], Some(c), 1)
  {
    hide *;
    PieceMore(a0, [a1], 20, [], Some(c), 1, 110, [blob], None, 1);
    assert [a0] + [a1] == [a0, a1];
    AppendNothing([blob], []);
    Maxima();
    PieceMore(priv, [a0, a1], 54, [d], None, 0, 130, [blob], Some(c), 1);
    assert [priv] + [a0, a1] == [priv, a0, a1] && [d] + [blob] == [d, blob];
  }

  lemma Maxima()
    ensures DerSyntax.Max(1, 1) == 1 && DerSyntax.Max(0, 1) == 1
  {
  }

  lemma SecretLeaf(c: Curve, d: bytes)
    requires Fits(c, d)
    ensures Piece([Leaf(OCTET_STRING, d)], 54, [d], None, 0)
  {
    PieceLeaf(OCTET_STRING, d);
    assert DecodedValue(OCTET_STRING, d) == d;
    hide Piece, Leaf;
    WiderBound([Leaf(OCTET_STRING, d)], |d| + 6, 54, [d], None, 0);
  }

  lemma VersionLeaf()
    ensures Piece([Leaf(INTEGER, [1])], 7, [], None, 0)
  {
    PieceLeaf(INTEGER, [1]);
    hide Piece, Leaf;
  }

  lemma PrivateKeyParts(c: Curve, d: bytes, x: bytes, y: bytes, newlines: nat)
    requires Fits(c, d) && Fits(c, x) && Fits(c, y)
    ensures Piece([Rfc5915(c, d, x, y, newlines)], 197 + newlines, [d, PublicBlob(x, y)], Some(c), 2)
  {
    hide Piece, Leaf, Branch, Constructed, PublicBlob, PublicBits, OidFromCurve;
    var version, priv := Leaf(INTEGER, [1]), Leaf(OCTET_STRING, d);
    var oid, key := Leaf(OBJECT_IDENTIFIER, OidFromCurve(c)), Leaf(BIT_STRING, PublicBits(x, y));
    var a0, a1 := Branch(0xa0, [oid], 0), Branch(0xa1, [key], 0);
    VersionLeaf();
    SecretLeaf(c, d);
    CurveLeaf(c);
    PublicLeaf(c, x, y);
    SequenceIsConstructed();
    PieceBranch(0xa0, [oid], 0, 14, [], Some(c), 0);
    PieceBranch(0xa1, [key], 0, 104, [PublicBlob(x, y)], None, 0);
    LeafTag(OCTET_STRING, d);
    BranchTag(0xa0, [oid], 0);
    BranchTag(0xa1, [key], 0);
    QuadParts(version, priv, a0, a1, newlines, c, d, PublicBlob(x, y));
  }

  lemma TripleParts(version: Node, priv: Node, a0: Node, newlines: nat, c: Curve, d: bytes)
    requires Piece([version], 7, [], None, 0) && Piece([priv], 54, [d], None, 0) && Piece([a0], 20, [], Some(c), 1)
    requires priv.tag != NEWLINE && a0.tag != NEWLINE
    ensures Piece([Branch(SEQUENCE, [version, priv, a0], newlines)], 87 + newlines, [d], Some(c), 2)
  {
    hide *;
    Maxima();
    PieceMore(priv, [a0], 54, [d], None, 0, 20, [], Some(c), 1);
    assert [priv] + [a0] == [priv, a0];
    AppendNothing([d], []);
    PieceMore(version, [priv, a0], 7, [], None, 0, 74, [d], Some(c), 1);
    assert [version] + [priv, a0] == [version, priv, a0];
    SequenceIsConstructed();
    PieceBranch(SEQUENCE, [version, priv, a0], newlines, 81, [d], Some(c), 1);
  }

  lemma PrivateOnlyParts(c: Curve, d: bytes, newlines: nat)
    requires Fits(c, d)
    ensures Piece([Rfc5915Private(c, d, newlines)], 87 + newlines, [d], Some(c), 2)
  {
    hide Piece, Leaf, Branch, Constructed, OidFromCurve;
    var version, priv, oid := Leaf(INTEGER, [1]), Leaf(OCTET_STRING, d), Leaf(OBJECT_IDENTIFIER, OidFromCurve(c));
    VersionLeaf();
    SecretLeaf(c, d);
    CurveLeaf(c);
    SequenceIsConstructed();
    PieceBranch(0xa0, [oid], 0, 14, [], Some(c), 0);
    LeafTag(OCTET_STRING, d);
    BranchTag(0xa0, [oid], 0);
    TripleParts(version, priv, Branch(0xa0, [oid], 0), newlines, c, d);
  }

  lemma WiderBound(ns: seq<Node>, bound: nat, wider: nat, ss: seq<bytes>, c: Option<Curve>, depth: nat)
    requires Piece(ns, bound, ss, c, depth) && bound <= wider
    ensures Piece(ns, wider, ss, c, depth)
  {
  }

  lemma PieceLoads(ns: seq<Node>, bound: nat, ss: seq<bytes>, c: Curve, depth: nat)
    requires Piece(ns, bound, ss, Some(c), depth) && depth <= 15
    ensures Parse(Print(ns), 1) == Forest(ns)
    ensures Strings(Flatten(ns)) == ss && LastCurve(Flatten(ns)) == Some(c)
  {
    ParseOfPrint(ns, 1);
    hide Parse, Print, WellFormed, Nesting;
  }

  /** The section 3 encoding of RFC 5915, with any number of newlines behind it,
      parses and loads as exactly that curve, private key and public key. */
  lemma LoadsRfc5915(c: Curve, d: bytes, x: bytes, y: bytes, newlines: nat)
    requires Fits(c, d) && Fits(c, x) && Fits(c, y)
    ensures var ns := [Rfc5915(c, d, x, y, newlines)];
            Parse(Print(ns), 1) == Forest(ns) && Load(Flatten(ns)) == Loaded(KeyParts(c, x, y, d))
  {
    var ns := [Rfc5915(c, d, x, y, newlines)];
    hide *;
    PrivateKeyParts(c, d, x, y, newlines);
    PieceLoads(ns, 197 + newlines, [d, PublicBlob(x, y)], c, 2);
    assert [d] + [PublicBlob(x, y)] == [d, PublicBlob(x, y)];
    LoadOf(Flatten(ns), c, [d], d, x, y);
  }

  /** Without the public key it loads as the curve and the private key alone. */
  lemma LoadsRfc5915Private(c: Curve, d: bytes, newlines: nat)
    requires Fits(c, d)
    ensures var ns := [Rfc5915Private(c, d, newlines)];
            Parse(Print(ns), 1) == Forest(ns) && Load(Flatten(ns)) == Loaded(KeyParts(c, [], [], d))
  {
    var ns := [Rfc5915Private(c, d, newlines)];
    hide *;
    PrivateOnlyParts(c, d, newlines);
    PieceLoads(ns, 87 + newlines, [d], c, 2);
    LoadOfPrivate(Flatten(ns), c, d);
  }

  lemma LoadOfPrivate(ts: seq<Tlv>, c: Curve, d: bytes)
    requires LastCurve(ts) == Some(c) && Strings(ts) == [d] && Fits(c, d)
    ensures Load(ts) == Loaded(KeyParts(c, [], [], d))
  {
    hide LastCurve, Strings;
  }

  lemma BlobParts(c: Curve, x: bytes, y: bytes)
    requires Fits(c, x) && Fits(c, y)
    ensures var p, n := PublicBlob(x, y), CoordinateSize(c);
            |p| == 2 * n + 1 && p[1..n + 1] == x && p[n + 1..] == y
  {
  }

  /** What a list with a known curve, at most one private key and a public key
      behind it is worth. */
  lemma LoadOf(ts: seq<Tlv>, c: Curve, priv: seq<bytes>, d: bytes, x: bytes, y: bytes)
    requires LastCurve(ts) == Some(c) && Strings(ts) == priv + [PublicBlob(x, y)]
    requires (priv == [] && d == []) || (priv == [d] && Fits(c, d))
    requires Fits(c, x) && Fits(c, y)
    ensures Load(ts) == Loaded(KeyParts(c, x, y, d))
  {
    hide LastCurve, Strings, PublicBlob;
    BlobParts(c, x, y);
  }

  /** The section 2 encoding of RFC 5480 loads as that curve and public key, with
      no private key. */
  lemma LoadsRfc5480(c: Curve, x: bytes, y: bytes, newlines: nat)
    requires Fits(c, x) && Fits(c, y)
    ensures var ns := [Rfc5480(c, x, y, newlines)];
            Parse(Print(ns), 1) == Forest(ns) && Load(Flatten(ns)) == Loaded(KeyParts(c, x, y, []))
  {
    var ns := [Rfc5480(c, x, y, newlines)];
    hide *;
    PublicKeyInfoParts(c, x, y, newlines);
    PieceLoads(ns, 143 + newlines, [PublicBlob(x, y)], c, 2);
    assert [] + [PublicBlob(x, y)] == [PublicBlob(x, y)];
    LoadOf(Flatten(ns), c, [], [], x, y);
  }

  // ---------------------------------------------------------------- the formats in octets

  lemma LeafOctets(tag: byte, body: bytes)
    requires |body| < 0x80
    ensures Print([Leaf(tag, body)]) == [tag, |body|] + body
  {
    LengthOctetsAre(Short, |body|);
    PrintOne(Leaf(tag, body));
    assert [tag] + [|body|] == [tag, |body|];
    hide LengthOctets;
  }

  lemma BranchOctets(tag: byte, ns: seq<Node>, e: bytes)
    requires Print(ns) == e && |e| < 0x100
    ensures Print([Branch(tag, ns, 0)]) == (if |e| < 0x80 then [tag, |e|] else [tag, 0x81, |e|]) + e
  {
    LengthOctetsAre(if |e| < 0x80 then Short else Long1, |e|);
    PrintOne(Branch(tag, ns, 0));
    assert [tag] + [|e|] == [tag, |e|] && [tag] + [0x81, |e|] == [tag, 0x81, |e|];
    hide LengthOctets, Print;
  }

  lemma PrintTwoNodes(m: Node, n: Node)
    ensures Print([m, n]) == Print([m]) + Print([n])
  {
    PrintAppend([m], [n]);
    assert [m] + [n] == [m, n];
    hide Print;
  }

  /** The curve as RFC 5915 has it, tagged [0]. */
  function CurveOctets(c: Curve): bytes {
    match c
    case P256 => [0xa0, 0x0a, 0x06, 0x08, 0x2a, 0x86, 0x48, 0xce, 0x3d, 0x03, 0x01, 0x07]
    case P384 => [0xa0, 0x07, 0x06, 0x05, 0x2b, 0x81, 0x04, 0x00, 0x22]
  }

  lemma CurveInOctets(c: Curve)
    ensures Print([Branch(0xa0, [Leaf(OBJECT_IDENTIFIER, OidFromCurve(c))], 0)]) == CurveOctets(c)
  {
    var oid := OidFromCurve(c);
    var e := [OBJECT_IDENTIFIER, |oid|] + oid;
    LeafOctets(OBJECT_IDENTIFIER, oid);
    BranchOctets(0xa0, [Leaf(OBJECT_IDENTIFIER, oid)], e);
    hide Print, Leaf, Branch;
  }

  /** The header of the public key, a BIT STRING with no unused bits that holds an
      uncompressed point. */
  function PointHeader(c: Curve): bytes {
    match c
    case P256 => [0x03, 0x42, 0x00, 0x04]
    case P384 => [0x03, 0x62, 0x00, 0x04]
  }

  lemma PointInOctets(c: Curve, x: bytes, y: bytes)
    requires Fits(c, x) && Fits(c, y)
    ensures Print([Leaf(BIT_STRING, PublicBits(x, y))]) == PointHeader(c) + x + y
  {
    LeafOctets(BIT_STRING, PublicBits(x, y));
    hide Print, Leaf;
    assert [BIT_STRING, |PublicBits(x, y)|] + [0, UNCOMPRESSED] == PointHeader(c);
    Assoc([0, UNCOMPRESSED], x, y);
    Assoc([BIT_STRING, |PublicBits(x, y)|], [0, UNCOMPRESSED], x + y);
    Assoc(PointHeader(c), x, y);
  }

  function SecretHeader(c: Curve): bytes {
    match c
    case P256 => [0x02, 0x01, 0x01, 0x04, 0x20]
    case P384 => [0x02, 0x01, 0x01, 0x04, 0x30]
  }

  lemma SecretInOctets(c: Curve, d: bytes)
    requires Fits(c, d)
    ensures Print([Leaf(INTEGER, [1]), Leaf(OCTET_STRING, d)]) == SecretHeader(c) + d
  {
    LeafOctets(INTEGER, [1]);
    LeafOctets(OCTET_STRING, d);
    PrintTwoNodes(Leaf(INTEGER, [1]), Leaf(OCTET_STRING, d));
    hide Print, Leaf;
    assert [INTEGER, 1] + [1] + [OCTET_STRING, |d|] == SecretHeader(c);
    Assoc([INTEGER, 1] + [1], [OCTET_STRING, |d|], d);
  }

  /** ECPrivateKey without its public key, octet by octet. */
  lemma Rfc5915PrivateOctets(c: Curve, d: bytes)
    requires Fits(c, d)
    ensures Print([Rfc5915Private(c, d, 0)]) ==
            match c
            case P256 => [0x30, 0x31] + ([0x02, 0x01, 0x01, 0x04, 0x20] + d
                         + [0xa0, 0x0a, 0x06, 0x08, 0x2a, 0x86, 0x48, 0xce, 0x3d, 0x03, 0x01, 0x07])
            case P384 => [0x30, 0x3e] + ([0x02, 0x01, 0x01, 0x04, 0x30] + d
                         + [0xa0, 0x07, 0x06, 0x05, 0x2b, 0x81, 0x04, 0x00, 0x22])
  {
    var v, s := Leaf(INTEGER, [1]), Leaf(OCTET_STRING, d);
    var a0 := Branch(0xa0, [Leaf(OBJECT_IDENTIFIER, OidFromCurve(c))], 0);
    SecretInOctets(c, d);
    CurveInOctets(c);
    PrintAppend([v, s], [a0]);
    assert [v, s] + [a0] == [v, s, a0];
    BranchOctets(SEQUENCE, [v, s, a0], SecretHeader(c) + d + CurveOctets(c));
    hide Print, Leaf, Branch;
  }

  /** ECPrivateKey with its public key. */
  lemma Rfc5915Octets(c: Curve, d: bytes, x: bytes, y: bytes)
    requires Fits(c, d) && Fits(c, x) && Fits(c, y)
    ensures Print([Rfc5915(c, d, x, y, 0)]) ==
            match c
            case P256 => [0x30, 0x77] + ([0x02, 0x01, 0x01, 0x04, 0x20] + d
                         + [0xa0, 0x0a, 0x06, 0x08, 0x2a, 0x86, 0x48, 0xce, 0x3d, 0x03, 0x01, 0x07]
                         + ([0xa1, 0x44] + ([0x03, 0x42, 0x00, 0x04] + x + y)))
            case P384 => [0x30, 0x81, 0xa4] + ([0x02, 0x01, 0x01, 0x04, 0x30] + d
                         + [0xa0, 0x07, 0x06, 0x05, 0x2b, 0x81, 0x04, 0x00, 0x22]
                         + ([0xa1, 0x64] + ([0x03, 0x62, 0x00, 0x04] + x + y)))
  {
    var v, s := Leaf(INTEGER, [1]), Leaf(OCTET_STRING, d);
    var a0 := Branch(0xa0, [Leaf(OBJECT_IDENTIFIER, OidFromCurve(c))], 0);
    var key := Leaf(BIT_STRING, PublicBits(x, y));
    var a1 := Branch(0xa1, [key], 0);
    SecretInOctets(c, d);
    CurveInOctets(c);
    PointInOctets(c, x, y);
    BranchOctets(0xa1, [key], PointHeader(c) + x + y);
    PrintAppend([v, s], [a0]);
    assert [v, s] + [a0] == [v, s, a0];
    PrintAppend([v, s, a0], [a1]);
    assert [v, s, a0] + [a1] == [v, s, a0, a1];
    BranchOctets(SEQUENCE, [v, s, a0, a1], SecretHeader(c) + d + CurveOctets(c) + Print([a1]));
    hide Print, Leaf, Branch;
  }

  function AlgorithmOctets(c: Curve): bytes {
    match c
    case P256 => [0x30, 0x13] + (ALGORITHM_NAME + CurveName(P256))
    case P384 => [0x30, 0x10] + (ALGORITHM_NAME + CurveName(P384))
  }

  lemma AlgorithmInOctets(c: Curve)
    ensures var alg, oid := Leaf(OBJECT_IDENTIFIER, EC_PUBLIC_KEY_OID), Leaf(OBJECT_IDENTIFIER, OidFromCurve(c));
            Print([Branch(SEQUENCE, [alg, oid], 0)]) == AlgorithmOctets(c)
  {
    var alg, oid := Leaf(OBJECT_IDENTIFIER, EC_PUBLIC_KEY_OID), Leaf(OBJECT_IDENTIFIER, OidFromCurve(c));
    hide *;
    AlgorithmNameOctets();
    OidOctets(c);
    PrintTwoNodes(alg, oid);
    AlgorithmBody(c);
    BranchOctets(SEQUENCE, [alg, oid], Print([alg]) + Print([oid]));
  }

  const ALGORITHM_NAME: bytes := [0x06, 0x07, 0x2a, 0x86, 0x48, 0xce, 0x3d, 0x02, 0x01]

  function CurveName(c: Curve): bytes {
    match c
    case P256 => [0x06, 0x08, 0x2a, 0x86, 0x48, 0xce, 0x3d, 0x03, 0x01, 0x07]
    case P384 => [0x06, 0x05, 0x2b, 0x81, 0x04, 0x00, 0x22]
  }

  lemma AlgorithmNameOctets()
    ensures Print([Leaf(OBJECT_IDENTIFIER, EC_PUBLIC_KEY_OID)]) == ALGORITHM_NAME
  {
    LeafOctets(OBJECT_IDENTIFIER, EC_PUBLIC_KEY_OID);
    hide Print, Leaf;
  }

  lemma OidOctets(c: Curve)
    ensures Print([Leaf(OBJECT_IDENTIFIER, OidFromCurve(c))]) == CurveName(c)
  {
    LeafOctets(OBJECT_IDENTIFIER, OidFromCurve(c));
    hide Print, Leaf;
  }

  lemma AlgorithmBody(c: Curve)
    ensures var e := ALGORITHM_NAME + CurveName(c); |e| < 0x80 && [SEQUENCE, |e|] + e == AlgorithmOctets(c)
  {
  }

  /** SubjectPublicKeyInfo, octet by octet. */
  lemma Rfc5480Octets(c: Curve, x: bytes, y: bytes)
    requires Fits(c, x) && Fits(c, y)
    ensures Print([Rfc5480(c, x, y, 0)]) ==
            match c
            case P256 => [0x30, 0x59] + ([0x30, 0x13] + ([0x06, 0x07, 0x2a, 0x86, 0x48, 0xce, 0x3d, 0x02, 0x01]
                         + [0x06, 0x08, 0x2a, 0x86, 0x48, 0xce, 0x3d, 0x03, 0x01, 0x07])
                         + ([0x03, 0x42, 0x00, 0x04] + x + y))
            case P384 => [0x30, 0x76] + ([0x30, 0x10] + ([0x06, 0x07, 0x2a, 0x86, 0x48, 0xce, 0x3d, 0x02, 0x01]
                         + [0x06, 0x05, 0x2b, 0x81, 0x04, 0x00, 0x22])
                         + ([0x03, 0x62, 0x00, 0x04] + x + y))
  {
    var alg, oid := Leaf(OBJECT_IDENTIFIER, EC_PUBLIC_KEY_OID), Leaf(OBJECT_IDENTIFIER, OidFromCurve(c));
    var info, key := Branch(SEQUENCE, [alg, oid], 0), Leaf(BIT_STRING, PublicBits(x, y));
    AlgorithmInOctets(c);
    PointInOctets(c, x, y);
    PrintTwoNodes(info, key);
    BranchOctets(SEQUENCE, [info, key], AlgorithmOctets(c) + (PointHeader(c) + x + y));
    hide Print, Leaf, Branch;
  }

  // ---------------------------------------------------------------- from bytes

  /** The loader does not look at the counts. */
  lemma {:induction false} LoadIgnoresCounts(xs: seq<Tlv>, ys: seq<Tlv>)
    requires Uncounted(xs) == Uncounted(ys)
    ensures Strings(xs) == Strings(ys) && LastCurve(xs) == LastCurve(ys)
    decreases |xs|
  {
    assert |xs| == |Uncounted(xs)| == |ys|;
    if xs != [] {
      var k := |xs| - 1;
      assert Uncounted(xs)[k] == Uncounted(ys)[k];
      assert Uncounted(xs[..k]) == Uncounted(xs)[..k];
      assert Uncounted(ys[..k]) == Uncounted(ys)[..k];
      LoadIgnoresCounts(xs[..k], ys[..k]);
    }
  }

  /** Decoding and loading together: what any input is worth, unless a length in
      it reaches outside. */
  method LoadKeyFromDer(input: bytes) returns (r: FromDer<LoadResult>)
    ensures r == match Parse(input, 1)
                 case Forest(ns) => Read(Load(Flatten(ns)))
                 case Malformed => NotDer
                 case OutOfBounds => BeyondInput
  {
    hide Parse, Flatten, Strings, LastCurve, Uncounted;
    var parsed, decoder := NewDecoder(input);
    if parsed != Ok {
      return Failed(parsed);
    }
    LoadIgnoresCounts(decoder.tlvs, Flatten(Parse(input, 1).nodes));
    assert decoder.tlvs[0..] == decoder.tlvs;
    var status, _, _, _, _ := LoadKeyPair(decoder);
    return Read(status);
  }
}
