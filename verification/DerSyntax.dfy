/** The concrete syntax that source/der.c reads: a forest of tag-length-value
    nodes that remembers which length form was used and how many newlines
    followed. Printing and parsing are inverse to each other, and parsing
    succeeds on exactly the well-formed forests nested at most 15 deep. */
module DerSyntax {
  import opened Bytes

  const BOOLEAN: byte := 0x01
  const INTEGER: byte := 0x02
  const BIT_STRING: byte := 0x03
  const OCTET_STRING: byte := 0x04
  const NULL: byte := 0x05
  const OBJECT_IDENTIFIER: byte := 0x06
  const UTF8_STRING: byte := 0x0c
  const PRINTABLE_STRING: byte := 0x13
  const IA5_STRING: byte := 0x16
  const BMP_STRING: byte := 0x1e
  const SEQUENCE: byte := 0x30
  const SET: byte := 0x31

  const NEWLINE: byte := 0x0a
  const MAX_DEPTH: nat := 16

  predicate Constructed(tag: byte) {
    tag / 0x20 % 2 == 1
  }

  // ---------------------------------------------------------------- lengths

  /** Length octets of section 8.1.3 of X.690: one octet, or 0x81, 0x82, 0x84
      followed by that many octets. */
  datatype LengthForm = Short | Long1 | Long2 | Long4

  predicate FormFits(form: LengthForm, len: nat) {
    match form
    case Short => len < 0x80
    case Long1 => len < 0x100
    case Long2 => len < 0x1_0000
    case Long4 => len < 0x1_0000_0000
  }

  function FormSize(form: LengthForm): nat {
    match form
    case Short => 1
    case Long1 => 2
    case Long2 => 3
    case Long4 => 5
  }

  function LengthOctets(form: LengthForm, len: nat): (s: bytes)
    ensures |s| == FormSize(form)
  {
    match form
    case Short => [len % 256]
    case Long1 => [0x81, len % 256]
    case Long2 => [0x82] + BigEndian(len, 2)
    case Long4 => [0x84] + BigEndian(len, 4)
  }

  datatype Header = Header(tag: byte, form: LengthForm, len: nat) | BadHeader

  /** The tag and length at the front of b. */
  function ReadHeader(b: bytes): (h: Header)
    ensures h.Header? ==> 1 + FormSize(h.form) <= |b|
  {
    if |b| < 2 then BadHeader
    else if b[1] < 0x80 then Header(b[0], Short, b[1])
    else match b[1] - 0x80
      case 1 => if |b| < 3 then BadHeader else Header(b[0], Long1, b[2])
      case 2 => if |b| < 4 then BadHeader else Header(b[0], Long2, FromBigEndian(b[2..4]))
      case 4 => if |b| < 6 then BadHeader else Header(b[0], Long4, FromBigEndian(b[2..6]))
      case _ => BadHeader
  }

  /** The length octets by arithmetic, most significant first. */
  lemma LengthOctetsAre(form: LengthForm, len: nat)
    requires FormFits(form, len)
    ensures LengthOctets(form, len) ==
            match form
            case Short => [len]
            case Long1 => [0x81, len]
            case Long2 => [0x82, len / 0x100, len % 256]
            case Long4 => [0x84, len / 0x100_0000, len / 0x1_0000 % 256, len / 0x100 % 256, len % 256]
  {
    BigEndianTwo(len);
    BigEndianFour(len);
    hide BigEndian;
  }

  /** The length read from any input by arithmetic; nothing else is read. */
  lemma LengthReadIs(b: bytes)
    ensures ReadHeader(b) ==
            if |b| < 2 then BadHeader
            else if b[1] < 0x80 then Header(b[0], Short, b[1])
            else if b[1] == 0x81 && |b| >= 3 then Header(b[0], Long1, b[2])
            else if b[1] == 0x82 && |b| >= 4 then Header(b[0], Long2, 0x100 * (b[2] as int) + b[3])
            else if b[1] == 0x84 && |b| >= 6 then
              Header(b[0], Long4,
                     0x100_0000 * (b[2] as int) + 0x1_0000 * (b[3] as int) + 0x100 * (b[4] as int) + b[5])
            else BadHeader
  {
    if |b| >= 4 {
      FromBigEndianTwo(b[2..4]);
    }
    if |b| >= 6 {
      FromBigEndianFour(b[2..6]);
    }
    hide FromBigEndian;
  }

  /** Constructed elements are those with bit 0x20 in their tag. */
  lemma ConstructedIsBit5(tag: byte)
    ensures Constructed(tag) <==>
            (0x20 <= tag < 0x40 || 0x60 <= tag < 0x80 || 0xa0 <= tag < 0xc0 || 0xe0 <= tag <= 0xff)
  {
  }

  lemma Pow256Values()
    ensures Pow256(2) == 0x1_0000 && Pow256(4) == 0x1_0000_0000
  {
    assert Pow256(3) == 0x100_0000;
  }

  lemma ReadWrittenHeader(tag: byte, form: LengthForm, len: nat, rest: bytes)
    requires FormFits(form, len)
    ensures ReadHeader([tag] + LengthOctets(form, len) + rest) == Header(tag, form, len)
  {
    var b := [tag] + LengthOctets(form, len) + rest;
    Pow256Values();
    match form
    case Short =>
    case Long1 =>
    case Long2 =>
      FromToBigEndian(len, 2);
      assert b[2..4] == BigEndian(len, 2);
    case Long4 =>
      FromToBigEndian(len, 4);
      assert b[2..6] == BigEndian(len, 4);
  }

  lemma WriteReadHeader(b: bytes)
    requires ReadHeader(b).Header?
    ensures var h := ReadHeader(b);
            && FormFits(h.form, h.len)
            && b[..1 + FormSize(h.form)] == [h.tag] + LengthOctets(h.form, h.len)
  {
    var h := ReadHeader(b);
    Pow256Values();
    match h.form
    case Short =>
    case Long1 =>
    case Long2 =>
      ToFromBigEndian(b[2..4]);
      assert b[..4] == [b[0], b[1]] + b[2..4];
    case Long4 =>
      ToFromBigEndian(b[2..6]);
      assert b[..6] == [b[0], b[1]] + b[2..6];
  }

  // ---------------------------------------------------------------- forests

  datatype Node =
    | Prim(tag: byte, form: LengthForm, body: bytes, newlines: nat)
    | Cons(tag: byte, form: LengthForm, children: seq<Node>, newlines: nat)

  function Element(tag: byte, form: LengthForm, body: bytes, newlines: nat): bytes {
    [tag] + LengthOctets(form, |body|) + body + Repeat(NEWLINE, newlines)
  }

  function Print(ns: seq<Node>): bytes
    decreases ns
  {
    if ns == [] then [] else
      var n := ns[0];
      Element(n.tag, n.form, if n.Prim? then n.body else Print(n.children), n.newlines) + Print(ns[1..])
  }

  function Body(n: Node): bytes {
    if n.Prim? then n.body else Print(n.children)
  }

  /** What a value must be for its decoded slice to lie inside it. */
  predicate BodyOk(tag: byte, body: bytes) {
    (tag == INTEGER || tag == BIT_STRING) ==> body != []
  }

  /** Every length fits its form and its enclosing element by construction. A
      later sibling may not carry tag 0x0a: it would be taken for a newline. */
  ghost predicate WellFormed(ns: seq<Node>)
    decreases ns
  {
    ns == [] ||
    (var n := ns[0];
     && (n.Cons? <==> Constructed(n.tag))
     && (n.Cons? ==> WellFormed(n.children))
     && FormFits(n.form, |Body(n)|)
     && BodyOk(n.tag, Body(n))
     && WellFormed(ns[1..])
     && (|ns| > 1 ==> ns[1].tag != NEWLINE))
  }

  function Max(a: nat, b: nat): nat {
    if a < b then b else a
  }

  /** The largest number of constructed elements around any point. */
  function Nesting(ns: seq<Node>): nat
    decreases ns
  {
    if ns == [] then 0
    else Max(if ns[0].Cons? then 1 + Nesting(ns[0].children) else 0, Nesting(ns[1..]))
  }

  // ---------------------------------------------------------------- parsing

  /** Malformed is the decoder's own refusal. OutOfBounds marks input on which
      the decoder would form a value outside the bytes it was given. */
  datatype Parsed = Forest(nodes: seq<Node>) | Malformed | OutOfBounds {
    function Prepend(n: Node): Parsed {
      match this
      case Forest(ns) => Forest([n] + ns)
      case _ => this
    }
  }

  function Newlines(b: bytes): (k: nat)
    ensures k <= |b|
  {
    if b != [] && b[0] == NEWLINE then 1 + Newlines(b[1..]) else 0
  }

  /** An element in front of its siblings. A constructed one needs its inside,
      and may only be entered while the depth allows. */
  function Combine(tag: byte, form: LengthForm, body: bytes, k: nat, depth: nat,
                   inside: Parsed, siblings: Parsed): Parsed {
    if !Constructed(tag) then siblings.Prepend(Prim(tag, form, body, k))
    else if depth >= MAX_DEPTH then Malformed
    else match inside
      case Forest(cs) => siblings.Prepend(Cons(tag, form, cs, k))
      case e => e
  }

  /** One element cut off the front of the input, and what follows it and its
      newlines. */
  datatype Cut =
    | Cut(tag: byte, form: LengthForm, body: bytes, newlines: nat, rest: bytes)
    | CutMalformed
    | CutOutOfBounds

  function CutFirst(b: bytes): (c: Cut)
    ensures c.Cut? ==> |c.body| < |b| && |c.rest| < |b|
  {
    match ReadHeader(b)
    case BadHeader => CutMalformed
    case Header(tag, form, len) =>
      var start := 1 + FormSize(form);
      if start + len > |b| || !BodyOk(tag, b[start..start + len]) then CutOutOfBounds
      else
        var after := b[start + len..];
        Cut(tag, form, b[start..start + len], Newlines(after), after[Newlines(after)..])
  }

  /** Parses all of b at the given depth, the top level being at depth 1. */
  function Parse(b: bytes, depth: nat): Parsed
    decreases |b|
  {
    if b == [] then Forest([])
    else match CutFirst(b)
      case CutMalformed => Malformed
      case CutOutOfBounds => OutOfBounds
      case Cut(tag, form, body, k, rest) =>
        Combine(tag, form, body, k, depth, Parse(body, depth + 1), Parse(rest, depth))
  }

  lemma {:induction false} CountNewlines(k: nat, rest: bytes)
    requires rest == [] || rest[0] != NEWLINE
    ensures Newlines(Repeat(NEWLINE, k) + rest) == k
  {
    if k == 0 {
      assert Repeat(NEWLINE, 0) + rest == rest;
    } else {
      assert (Repeat(NEWLINE, k) + rest)[1..] == Repeat(NEWLINE, k - 1) + rest;
      CountNewlines(k - 1, rest);
    }
  }

  lemma {:induction false} SplitNewlines(b: bytes)
    ensures var k := Newlines(b);
            && b == Repeat(NEWLINE, k) + b[k..]
            && (b[k..] == [] || b[k..][0] != NEWLINE)
  {
    if b != [] && b[0] == NEWLINE {
      var k := Newlines(b[1..]);
      SplitNewlines(b[1..]);
      assert b == [NEWLINE] + b[1..];
      assert b[1 + k..] == b[1..][k..];
      RepeatMore(NEWLINE, k);
      Assoc([NEWLINE], Repeat(NEWLINE, k), b[1..][k..]);
    } else {
      AppendNothing(b, Repeat(NEWLINE, 0));
    }
  }

  ghost predicate NoNewlineAhead(rest: bytes) {
    rest == [] || rest[0] != NEWLINE
  }

  /** A printed element is cut off as printed ... */
  lemma CutOfElement(tag: byte, form: LengthForm, body: bytes, k: nat, rest: bytes)
    requires FormFits(form, |body|) && BodyOk(tag, body) && NoNewlineAhead(rest)
    ensures CutFirst(Element(tag, form, body, k) + rest) == Cut(tag, form, body, k, rest)
  {
    hide Element, ReadHeader, LengthOctets, FormFits, BodyOk, Newlines;
    var head, tail := [tag] + LengthOctets(form, |body|), Repeat(NEWLINE, k) + rest;
    ElementShape(tag, form, body, k, rest);
    ReadWrittenHeader(tag, form, |body|, body + tail);
    CountNewlines(k, rest);
    Halves(Repeat(NEWLINE, k), rest);
    Middle(head, body, tail);
  }

  lemma ElementShape(tag: byte, form: LengthForm, body: bytes, k: nat, rest: bytes)
    ensures var head, tail := [tag] + LengthOctets(form, |body|), Repeat(NEWLINE, k) + rest;
            Element(tag, form, body, k) + rest == head + body + tail == head + (body + tail)
  {
    var head, nl := [tag] + LengthOctets(form, |body|), Repeat(NEWLINE, k);
    hide LengthOctets;
    Assoc(head + body, nl, rest);
    Assoc(head, body, nl + rest);
  }

  lemma Middle(x: bytes, y: bytes, z: bytes)
    ensures (x + y + z)[|x|..|x| + |y|] == y
    ensures (x + y + z)[|x| + |y|..] == z
  {
  }

  /** ... and whatever is cut off was a printed element. */
  lemma ElementOfCut(b: bytes)
    requires CutFirst(b).Cut?
    ensures var c := CutFirst(b);
            && b == Element(c.tag, c.form, c.body, c.newlines) + c.rest
            && FormFits(c.form, |c.body|) && BodyOk(c.tag, c.body) && NoNewlineAhead(c.rest)
  {
    var h, c := ReadHeader(b), CutFirst(b);
    WriteReadHeader(b);
    var start := 1 + FormSize(h.form);
    var head, after := b[..start], b[start + h.len..];
    SplitNewlines(after);
    FourParts(b, start, start + h.len, Repeat(NEWLINE, c.newlines), c.rest);
    hide ReadHeader, LengthOctets, FormFits, BodyOk, Newlines;
  }

  lemma FourParts(b: bytes, i: nat, j: nat, y: bytes, z: bytes)
    requires i <= j <= |b| && b[j..] == y + z
    ensures b == b[..i] + b[i..j] + y + z
  {
    assert b == b[..i] + b[i..j] + (y + z);
  }

  lemma PrintStartsWithTag(ns: seq<Node>)
    requires ns != []
    ensures Print(ns) != [] && Print(ns)[0] == ns[0].tag
  {
  }

  lemma ParseFirst(ns: seq<Node>, depth: nat)
    requires WellFormed(ns) && ns != []
    ensures Parse(Print(ns), depth)
         == Combine(ns[0].tag, ns[0].form, Body(ns[0]), ns[0].newlines, depth,
                    Parse(Body(ns[0]), depth + 1), Parse(Print(ns[1..]), depth))
  {
    hide CutFirst, Element, FormFits, BodyOk, Constructed, Combine;
    var n, rest := ns[0], Print(ns[1..]);
    PrintStartsWithTag(ns);
    if |ns| > 1 {
      PrintStartsWithTag(ns[1..]);
    }
    CutOfElement(n.tag, n.form, Body(n), n.newlines, rest);
  }

  lemma ParseNothing(depth: nat)
    ensures Parse([], depth) == Forest([]) && Print([]) == []
  {
  }

  /** Parsing a printed well-formed forest succeeds if and only if it is not
      nested too deep, and gives the forest back. */
  lemma {:induction false} ParseOfPrint(ns: seq<Node>, depth: nat)
    requires WellFormed(ns) && depth <= MAX_DEPTH
    ensures Parse(Print(ns), depth)
         == if depth + Nesting(ns) <= MAX_DEPTH then Forest(ns) else Malformed
    decreases ns
  {
    hide Parse, Print, FormFits, BodyOk, Constructed;
    if ns == [] {
      ParseNothing(depth);
    } else {
      var n := ns[0];
      ParseFirst(ns, depth);
      ParseOfPrint(ns[1..], depth);
      if n.Cons? && depth < MAX_DEPTH {
        ParseOfPrint(n.children, depth + 1);
      }
      assert ns == [n] + ns[1..];
    }
  }

  /** Whatever parses is the printing of a well-formed forest nested as allowed. */
  lemma {:induction false} PrintOfParse(b: bytes, depth: nat)
    requires Parse(b, depth).Forest? && depth <= MAX_DEPTH
    ensures var ns := Parse(b, depth).nodes;
            WellFormed(ns) && Print(ns) == b && depth + Nesting(ns) <= MAX_DEPTH
    decreases |b|
  {
    hide CutFirst, Element, FormFits, BodyOk, Constructed, Print, WellFormed, Nesting;
    if b == [] {
      EmptyForest();
    } else {
      var c := CutFirst(b);
      ElementOfCut(b);
      PrintOfParse(c.rest, depth);
      if Constructed(c.tag) {
        PrintOfParse(c.body, depth + 1);
      }
      Glue(b, c, depth, Parse(c.body, depth + 1), Parse(c.rest, depth).nodes);
    }
  }

  lemma EmptyForest()
    ensures WellFormed([]) && Print([]) == [] && Nesting([]) == 0
  {
  }

  lemma Glue(b: bytes, c: Cut, depth: nat, inside: Parsed, tail: seq<Node>)
    requires depth <= MAX_DEPTH && c.Cut?
    requires b == Element(c.tag, c.form, c.body, c.newlines) + c.rest && NoNewlineAhead(c.rest)
    requires FormFits(c.form, |c.body|) && BodyOk(c.tag, c.body)
    requires WellFormed(tail) && Print(tail) == c.rest && depth + Nesting(tail) <= MAX_DEPTH
    requires Constructed(c.tag) ==>
               && depth < MAX_DEPTH && inside.Forest? && WellFormed(inside.nodes)
               && Print(inside.nodes) == c.body && depth + 1 + Nesting(inside.nodes) <= MAX_DEPTH
    ensures var r := Combine(c.tag, c.form, c.body, c.newlines, depth, inside, Forest(tail));
            r.Forest? && WellFormed(r.nodes) && Print(r.nodes) == b && depth + Nesting(r.nodes) <= MAX_DEPTH
  {
    hide Element, FormFits, BodyOk, Constructed;
    var n := if Constructed(c.tag) then Cons(c.tag, c.form, inside.nodes, c.newlines)
             else Prim(c.tag, c.form, c.body, c.newlines);
    var ns := [n] + tail;
    assert ns[1..] == tail;
    assert Body(n) == c.body;
    if tail != [] {
      PrintStartsWithTag(tail);
    }
  }

  /** The inputs that parse at the top level are exactly the printed well-formed
      forests with at most 15 levels of constructed elements. */
  lemma ParsesExactlyWellFormed(b: bytes, ns: seq<Node>)
    ensures Parse(b, 1) == Forest(ns)
       <==> WellFormed(ns) && Print(ns) == b && Nesting(ns) <= 15
  {
    if Parse(b, 1) == Forest(ns) {
      PrintOfParse(b, 1);
    }
    if WellFormed(ns) && Print(ns) == b {
      ParseOfPrint(ns, 1);
    }
  }

  /** k sequences, one inside the other. */
  function Nest(k: nat): seq<Node> {
    if k == 0 then [] else [Cons(SEQUENCE, Short, Nest(k - 1), 0)]
  }

  function NestOctets(k: nat): (b: bytes)
    requires k <= 64
    ensures |b| == 2 * k
  {
    if k == 0 then [] else [0x30, 2 * (k - 1)] + NestOctets(k - 1)
  }

  lemma {:induction false} NestPrints(k: nat)
    requires k <= 64
    ensures Print(Nest(k)) == NestOctets(k) && WellFormed(Nest(k)) && Nesting(Nest(k)) == k
  {
    if k > 0 {
      NestPrints(k - 1);
      var n := Cons(SEQUENCE, Short, Nest(k - 1), 0);
      assert [n][1..] == [] && WellFormed([]) && Nesting([]) == 0 && Print([]) == [];
      ShortElement(SEQUENCE, NestOctets(k - 1), 0);
      AppendNothing([SEQUENCE, 2 * (k - 1)] + NestOctets(k - 1), Repeat(NEWLINE, 0));
      hide Element, Nest, NestOctets;
      AppendNothing(Element(SEQUENCE, Short, NestOctets(k - 1), 0), []);
      NestUnfolds(k);
    }
  }

  lemma NestUnfolds(k: nat)
    requires 0 < k <= 64
    ensures Nest(k) == [Cons(SEQUENCE, Short, Nest(k - 1), 0)]
    ensures NestOctets(k) == [0x30, 2 * (k - 1)] + NestOctets(k - 1)
  {
  }

  /** Fifteen sequences inside each other are read, sixteen are not. */
  lemma DepthLimitIs15(k: nat)
    requires k <= 64
    ensures Parse(NestOctets(k), 1) == if k <= 15 then Forest(Nest(k)) else Malformed
  {
    NestPrints(k);
    ParseOfPrint(Nest(k), 1);
    hide Parse, Print, Nest, NestOctets, WellFormed, Nesting;
  }

  /** The tag of an ENUMERATED behind another element is skipped as a newline:
      what follows it is read as something else. */
  lemma EnumeratedReadsAsBoolean()
    ensures var written := [Prim(NULL, Short, [], 0), Prim(NEWLINE, Short, [0], 0)];
            && Print(written) == [0x05, 0x00, 0x0a, 0x01, 0x00]
            && Parse(Print(written), 1) == Forest([Prim(NULL, Short, [], 1), Prim(BOOLEAN, Short, [], 0)])
  {
    PrintTwo(NULL, [], 0, NEWLINE, [0]);
    assert [NULL, 0] + [] + Repeat(NEWLINE, 0) + ([NEWLINE, 1] + [0]) == [0x05, 0x00, 0x0a, 0x01, 0x00];
    PrintTwo(NULL, [], 1, BOOLEAN, []);
    assert [NULL, 0] + [] + Repeat(NEWLINE, 1) + ([BOOLEAN, 0] + []) == [0x05, 0x00, 0x0a, 0x01, 0x00];
    TwoAreWellFormed(NULL, [], 1, BOOLEAN, []);
    ParseOfPrint([Prim(NULL, Short, [], 1), Prim(BOOLEAN, Short, [], 0)], 1);
    hide *;
  }

  lemma PrintTwo(tag: byte, body: bytes, k: nat, tag': byte, body': bytes)
    requires |body| < 128 && |body'| < 128
    ensures Print([Prim(tag, Short, body, k), Prim(tag', Short, body', 0)])
         == [tag, |body|] + body + Repeat(NEWLINE, k) + ([tag', |body'|] + body')
  {
    var m, n := Prim(tag, Short, body, k), Prim(tag', Short, body', 0);
    ShortElement(tag, body, k);
    ShortElement(tag', body', 0);
    AppendNothing([tag', |body'|] + body', Repeat(NEWLINE, 0));
    hide Element;
    assert [m, n][1..] == [n] && [n][1..] == [];
    assert Print([n]) == Element(tag', Short, body', 0) + Print([]);
    AppendNothing(Element(tag', Short, body', 0), Print([]));
  }

  lemma ShortElement(tag: byte, body: bytes, k: nat)
    requires |body| < 128
    ensures Element(tag, Short, body, k) == [tag, |body|] + body + Repeat(NEWLINE, k)
  {
    assert [tag] + LengthOctets(Short, |body|) == [tag, |body|];
  }

  lemma TwoAreWellFormed(tag: byte, body: bytes, k: nat, tag': byte, body': bytes)
    requires |body| < 128 && |body'| < 128 && BodyOk(tag, body) && BodyOk(tag', body')
    requires !Constructed(tag) && !Constructed(tag') && tag' != NEWLINE
    ensures var ns := [Prim(tag, Short, body, k), Prim(tag', Short, body', 0)]; WellFormed(ns) && Nesting(ns) == 0
  {
    var m, n := Prim(tag, Short, body, k), Prim(tag', Short, body', 0);
    hide BodyOk, Constructed;
    assert [m, n][1..] == [n] && [n][1..] == [];
    assert WellFormed([]) && Nesting([]) == 0;
    assert WellFormed([n]) && Nesting([n]) == 0;
  }

  /** A first element whose length exceeds what follows it is not refused by the
      decoder, and leads it outside the input. */
  lemma LengthBeyondInput(b: bytes, depth: nat)
    requires ReadHeader(b).Header? && 1 + FormSize(ReadHeader(b).form) + ReadHeader(b).len > |b|
    ensures Parse(b, depth) == OutOfBounds
  {
    hide ReadHeader;
    assert b != [] by {
      HeaderNeedsOctets(b);
    }
  }

  lemma HeaderNeedsOctets(b: bytes)
    requires ReadHeader(b).Header?
    ensures |b| >= 2
  {
  }
}
