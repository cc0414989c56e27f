/** What a run of encoder calls writes: a forest of items, its encoding, and the
    proof that the stack machine of source/der.c encodes exactly that forest and
    that the decoder reads it back. */
module DerDocument {
  import opened Bytes
  import opened DerSyntax
  import opened DerList
  import opened DerDecoder

  const UINT32_RANGE: nat := 0x1_0000_0000

  // ---------------------------------------------------------------- one element

  /** The contents octets written for a value: an unsigned integer with its top
      bit set gets a zero byte in front, a bit string its unused-bits byte. */
  function Content(tag: byte, value: bytes): bytes {
    if tag == INTEGER then (if value != [] && value[0] >= 0x80 then [0] else []) + value
    else if tag == BOOLEAN then [if value != [] && value[0] != 0 then 0xff else 0x00]
    else if tag == BIT_STRING then [0] + value
    else if tag == NULL then []
    else value
  }

  /** s_encoded_len, a uint32_t. */
  function EncodedLen(tag: byte, value: bytes): nat {
    (if tag == INTEGER && value != [] && value[0] >= 0x80 then |value| + 1
     else if tag == BIT_STRING then |value| + 1
     else |value|) % UINT32_RANGE
  }

  function FormFor(len: nat): LengthForm {
    if len > 0xffff then Long4 else if len > 0xff then Long2 else if len > 0x7f then Long1 else Short
  }

  /** The number of octets of a positive number without leading zeros. */
  function OctetsNeeded(n: nat): nat {
    if n < 256 then 1 else 1 + OctetsNeeded(n / 256)
  }

  lemma {:induction false} OctetsNeededIsLeast(n: nat)
    ensures n < Pow256(OctetsNeeded(n))
    ensures forall w: nat :: 0 < w && n < Pow256(w) ==> OctetsNeeded(n) <= w
  {
    if n >= 256 {
      OctetsNeededIsLeast(n / 256);
      forall w: nat | 0 < w && n < Pow256(w)
        ensures OctetsNeeded(n) <= w
      {
        assert n / 256 < Pow256(w - 1);
        assert Pow256(0) == 1;
      }
    }
  }

  /** The number of length octets that section 10.1 of X.690 demands: the fewest
      that section 8.1.3 allows. */
  function ShortestLength(len: nat): nat {
    if len < 0x80 then 1 else 1 + OctetsNeeded(len)
  }

  /** The length octets are the shortest possible except where three octets for
      the length would do and four are written. */
  lemma LengthsAreShortestExactly(len: nat)
    requires len < UINT32_RANGE
    ensures |LengthOctets(FormFor(len), len)| == ShortestLength(len) <==> !(0x1_0000 <= len < 0x100_0000)
  {
    if len >= 0x1_0000 {
      var mid := len / 256;
      var high := mid / 256;
      assert OctetsNeeded(len) == 2 + OctetsNeeded(high);
      if len >= 0x100_0000 {
        assert 256 <= high < 0x1_0000 && OctetsNeeded(high / 256) == 1;
      } else {
        assert high < 256;
      }
    } else if len >= 0x100 {
      assert OctetsNeeded(len / 256) == 1;
    }
  }

  lemma LengthThatIsNotShortest()
    ensures |LengthOctets(FormFor(0x1_0000), 0x1_0000)| == 5 && ShortestLength(0x1_0000) == 4
  {
    assert OctetsNeeded(0x1_0000) == 3;
  }

  /** The decoder for its part refuses every length in three octets. */
  lemma ThreeOctetLengthsAreRefused(tag: byte, rest: bytes, depth: nat)
    ensures Parse([tag, 0x83] + rest, depth) == Malformed
  {
    var b := [tag, 0x83] + rest;
    assert b[0] == tag && b[1] == 0x83;
    assert ReadHeader(b) == BadHeader;
  }

  /** All the octets s_der_write_tlv writes. */
  function Encoding(tag: byte, value: bytes): bytes {
    var len := EncodedLen(tag, value);
    [tag] + LengthOctets(FormFor(len), len) + Content(tag, value)
  }

  // ---------------------------------------------------------------- items

  datatype Item =
    | Integer(value: bytes)
    | Boolean(flag: bool)
    | Null
    | BitString(value: bytes)
    | OctetString(value: bytes)
    | Container(tag: byte, items: seq<Item>)

  function ItemTag(x: Item): byte {
    match x
    case Integer(_) => INTEGER
    case Boolean(_) => BOOLEAN
    case Null => NULL
    case BitString(_) => BIT_STRING
    case OctetString(_) => OCTET_STRING
    case Container(tag, _) => tag
  }

  /** The value handed to the writer for a primitive item. */
  function ItemValue(x: Item): bytes
    requires !x.Container?
  {
    match x
    case Integer(v) => v
    case Boolean(f) => [if f then 1 else 0]
    case Null => []
    case BitString(v) => v
    case OctetString(v) => v
  }

  /** What the writers demand: a non-empty integer, a 32-bit length. */
  predicate Writable(x: Item) {
    && !x.Container?
    && (x.Integer? ==> x.value != [])
    && |ItemValue(x)| < UINT32_RANGE
  }

  ghost predicate Legal(xs: seq<Item>)
    decreases xs
  {
    xs == [] ||
    (&& (if xs[0].Container? then (xs[0].tag == SEQUENCE || xs[0].tag == SET) && Legal(xs[0].items)
         else Writable(xs[0]))
     && Legal(xs[1..]))
  }

  /** The forest of elements that encodes the items. */
  function Nodes(xs: seq<Item>): (ns: seq<Node>)
    ensures |ns| == |xs|
    decreases xs
  {
    if xs == [] then [] else
      var x := xs[0];
      [if x.Container? then
         var children := Nodes(x.items);
         Cons(x.tag, FormFor(|Print(children)|), children, 0)
       else
         var body := Content(ItemTag(x), ItemValue(x));
         Prim(ItemTag(x), FormFor(|body|), body, 0)] + Nodes(xs[1..])
  }

  function NodeOf(x: Item): Node {
    Nodes([x])[0]
  }

  function Encode(xs: seq<Item>): bytes {
    Print(Nodes(xs))
  }

  /** The value encoded for any item. */
  function ValueOf(x: Item): bytes {
    if x.Container? then Encode(x.items) else ItemValue(x)
  }

  lemma {:induction false} NodesAppend(xs: seq<Item>, ys: seq<Item>)
    ensures Nodes(xs + ys) == Nodes(xs) + Nodes(ys)
  {
    if xs == [] {
      assert xs + ys == ys;
    } else {
      assert (xs + ys)[1..] == xs[1..] + ys;
      NodesAppend(xs[1..], ys);
      assert (xs + ys)[0] == xs[0];
    }
  }

  lemma {:induction false} PrintAppend(ms: seq<Node>, ns: seq<Node>)
    ensures Print(ms + ns) == Print(ms) + Print(ns)
  {
    hide *;
    if ms == [] {
      EmptyForest();
      assert ms + ns == ns;
      AppendNothing(Print(ns), Print([]));
    } else {
      PrintFirst(ms);
      PrintFirst(ms + ns);
      assert (ms + ns)[1..] == ms[1..] + ns;
      PrintAppend(ms[1..], ns);
      Assoc(PrintedElement(ms[0]), Print(ms[1..]), Print(ns));
    }
  }

  function PrintedElement(n: Node): bytes {
    Element(n.tag, n.form, Body(n), n.newlines)
  }

  lemma PrintFirst(ns: seq<Node>)
    requires ns != []
    ensures Print(ns) == PrintedElement(ns[0]) + Print(ns[1..])
  {
    hide Element;
  }

  lemma PrintOne(n: Node)
    requires n.newlines == 0
    ensures Print([n]) == [n.tag] + LengthOctets(n.form, |Body(n)|) + Body(n)
  {
    var e := Element(n.tag, n.form, Body(n), 0);
    AppendNothing(e, Print([n][1..]));
    AppendNothing([n.tag] + LengthOctets(n.form, |Body(n)|) + Body(n), Repeat(NEWLINE, 0));
  }

  /** One more item adds what the writer writes for it, as long as lengths stay
      within 32 bits. */
  lemma EncodeOneMore(xs: seq<Item>, x: Item)
    requires |Content(ItemTag(x), ValueOf(x))| < UINT32_RANGE
    requires x.Container? ==> x.tag == SEQUENCE || x.tag == SET
    ensures Encode(xs + [x]) == Encode(xs) + Encoding(ItemTag(x), ValueOf(x))
  {
    NodesAppend(xs, [x]);
    PrintAppend(Nodes(xs), Nodes([x]));
    NodeOfItem(x);
    PrintOne(NodeOf(x));
    EncodedLenIsContentLen(ItemTag(x), ValueOf(x));
    assert Nodes([x]) == [NodeOf(x)];
    hide *;
  }

  lemma NodeOfItem(x: Item)
    requires x.Container? ==> x.tag == SEQUENCE || x.tag == SET
    ensures var n, body := NodeOf(x), Content(ItemTag(x), ValueOf(x));
            n.tag == ItemTag(x) && Body(n) == body && n.form == FormFor(|body|) && n.newlines == 0
  {
  }

  lemma EncodedLenIsContentLen(tag: byte, value: bytes)
    requires |Content(tag, value)| < UINT32_RANGE
    requires tag == BOOLEAN ==> |value| == 1
    requires tag == NULL ==> value == []
    ensures EncodedLen(tag, value) == |Content(tag, value)|
  {
  }

  /** The octets of each kind of item. */
  lemma EncodedItem(x: Item)
    requires |Content(ItemTag(x), ValueOf(x))| < UINT32_RANGE
    requires x.Container? ==> x.tag == SEQUENCE || x.tag == SET
    ensures Encode([x]) ==
            match x
            case Integer(v) =>
              var pad := if v != [] && v[0] >= 0x80 then [0x00] else [];
              [0x02] + WrittenLength(|pad| + |v|) + (pad + v)
            case Boolean(f) => if f then [0x01, 0x01, 0xff] else [0x01, 0x01, 0x00]
            case Null => [0x05, 0x00]
            case BitString(v) => [0x03] + WrittenLength(|v| + 1) + ([0x00] + v)
            case OctetString(v) => [0x04] + WrittenLength(|v|) + v
            case Container(tag, items) =>
              [if tag == SEQUENCE then 0x30 else 0x31] + WrittenLength(|Encode(items)|) + Encode(items)
  {
    hide Encode, WrittenLength, EncodedLen, Encoding;
    EncodedAlone(x);
    WrittenShort();
  }

  lemma EncodedAlone(x: Item)
    requires |Content(ItemTag(x), ValueOf(x))| < UINT32_RANGE
    requires x.Container? ==> x.tag == SEQUENCE || x.tag == SET
    ensures var c := Content(ItemTag(x), ValueOf(x)); Encode([x]) == [ItemTag(x)] + WrittenLength(|c|) + c
  {
    EncodedLenIsContentLen(ItemTag(x), ValueOf(x));
    assert Encoding(ItemTag(x), ValueOf(x))
        == [ItemTag(x)] + WrittenLength(|Content(ItemTag(x), ValueOf(x))|) + Content(ItemTag(x), ValueOf(x));
    EncodeOneMore([], x);
    hide *;
    EncodeEmpty();
    AppendNothing([x], []);
    AppendNothing(Encoding(ItemTag(x), ValueOf(x)), []);
  }

  lemma EncodeEmpty()
    ensures Encode([]) == []
  {
  }

  /** The length octets the encoder writes. */
  function WrittenLength(len: nat): bytes {
    LengthOctets(FormFor(len), len)
  }

  lemma WrittenShort()
    ensures WrittenLength(0) == [0x00] && WrittenLength(1) == [0x01]
  {
  }

  /** Those octets by arithmetic. */
  lemma WrittenLengthIs(len: nat)
    requires len < UINT32_RANGE
    ensures WrittenLength(len) ==
            if len < 0x80 then [len]
            else if len < 0x100 then [0x81, len]
            else if len < 0x1_0000 then [0x82, len / 0x100, len % 256]
            else [0x84, len / 0x100_0000, len / 0x1_0000 % 256, len / 0x100 % 256, len % 256]
  {
    LengthOctetsAre(FormFor(len), len);
    hide LengthOctets;
  }

  // ---------------------------------------------------------------- the stack machine

  datatype Frame = Frame(tag: byte, buf: bytes)

  /** The encoder: its storage, the containers still open and the capacity that
      every one of their buffers has. */
  datatype Machine = Machine(capacity: nat, storage: bytes, stack: seq<Frame>)

  datatype Op = Write(item: Item) | Begin(tag: byte) | End

  /** What callers may do: write writable items, open sequences and sets. */
  predicate LegalOp(op: Op) {
    match op
    case Write(x) => Writable(x)
    case Begin(tag) => tag == SEQUENCE || tag == SET
    case End => true
  }

  predicate AllLegal(ops: seq<Op>) {
    forall op :: op in ops ==> LegalOp(op)
  }

  /** The buffer being written to. */
  function Top(m: Machine): bytes {
    if m.stack == [] then m.storage else m.stack[|m.stack| - 1].buf
  }

  function WithTop(m: Machine, buf: bytes): Machine {
    if m.stack == [] then m.(storage := buf)
    else m.(stack := m.stack[|m.stack| - 1 := Frame(m.stack[|m.stack| - 1].tag, buf)])
  }

  function Emit(m: Machine, tag: byte, value: bytes): Option<Machine> {
    if |Top(m)| + |Encoding(tag, value)| <= m.capacity then Some(WithTop(m, Top(m) + Encoding(tag, value)))
    else None
  }

  /** The state after a call that succeeds. */
  function Step(m: Machine, op: Op): Option<Machine>
    requires LegalOp(op)
  {
    match op
    case Write(x) => Emit(m, ItemTag(x), ItemValue(x))
    case Begin(tag) => Some(m.(stack := m.stack + [Frame(tag, [])]))
    case End =>
      if m.stack == [] then None
      else
        var frame := m.stack[|m.stack| - 1];
        Emit(m.(stack := m.stack[..|m.stack| - 1]), frame.tag, frame.buf[..|frame.buf| % UINT32_RANGE])
  }

  function Run(m: Machine, ops: seq<Op>): Option<Machine>
    requires AllLegal(ops)
    decreases |ops|
  {
    if ops == [] then Some(m)
    else match Step(m, ops[0])
      case None => None
      case Some(m') => Run(m', ops[1..])
  }

  // ---------------------------------------------------------------- the document a run writes

  datatype Level = Level(tag: byte, items: seq<Item>)

  /** Closed top-level items, and for each open container its closed children. */
  datatype Doc = Doc(root: seq<Item>, open: seq<Level>)

  function AddItem(d: Doc, x: Item): Doc {
    if d.open == [] then d.(root := d.root + [x])
    else
      var l := d.open[|d.open| - 1];
      d.(open := d.open[|d.open| - 1 := l.(items := l.items + [x])])
  }

  function Apply(d: Doc, op: Op): Doc {
    match op
    case Write(x) => AddItem(d, x)
    case Begin(tag) => d.(open := d.open + [Level(tag, [])])
    case End =>
      if d.open == [] then d
      else
        var l := d.open[|d.open| - 1];
        AddItem(d.(open := d.open[..|d.open| - 1]), Container(l.tag, l.items))
  }

  function Build(d: Doc, ops: seq<Op>): Doc
    decreases |ops|
  {
    if ops == [] then d else Build(Apply(d, ops[0]), ops[1..])
  }

  ghost predicate LevelMatches(capacity: nat, buf: bytes, xs: seq<Item>) {
    buf == Encode(xs) && Legal(xs) && |buf| <= capacity
  }

  /** Every buffer is the concatenated encoding of that level's closed items. */
  ghost predicate Matches(m: Machine, d: Doc) {
    && LevelMatches(m.capacity, m.storage, d.root)
    && |m.stack| == |d.open|
    && forall i :: 0 <= i < |m.stack| ==>
         && m.stack[i].tag == d.open[i].tag
         && (m.stack[i].tag == SEQUENCE || m.stack[i].tag == SET)
         && LevelMatches(m.capacity, m.stack[i].buf, d.open[i].items)
  }

  lemma {:induction false} LegalAppend(xs: seq<Item>, x: Item)
    requires Legal(xs) && Legal([x])
    ensures Legal(xs + [x])
  {
    if xs == [] {
      assert xs + [x] == [x];
    } else {
      assert (xs + [x])[1..] == xs[1..] + [x];
      LegalAppend(xs[1..], x);
    }
  }

  lemma ContentWithinEncoding(tag: byte, value: bytes)
    ensures |Content(tag, value)| <= |Encoding(tag, value)|
  {
  }

  lemma LevelGrows(capacity: nat, buf: bytes, xs: seq<Item>, x: Item)
    requires LevelMatches(capacity, buf, xs) && Legal([x]) && capacity < UINT32_RANGE
    requires |buf| + |Encoding(ItemTag(x), ValueOf(x))| <= capacity
    ensures LevelMatches(capacity, buf + Encoding(ItemTag(x), ValueOf(x)), xs + [x])
  {
    ContentWithinEncoding(ItemTag(x), ValueOf(x));
    EncodeOneMore(xs, x);
    LegalAppend(xs, x);
    hide Encode, Legal, Encoding;
  }

  lemma EmitMatches(m: Machine, d: Doc, x: Item, m': Machine)
    requires Matches(m, d) && m.capacity < UINT32_RANGE && Legal([x])
    requires Emit(m, ItemTag(x), ValueOf(x)) == Some(m')
    ensures Matches(m', AddItem(d, x))
  {
    hide LevelMatches, Encoding, Legal, ValueOf, ItemTag;
    var k := |m.stack| - 1;
    if m.stack == [] {
      LevelGrows(m.capacity, m.storage, d.root, x);
    } else {
      LevelGrows(m.capacity, m.stack[k].buf, d.open[k].items, x);
    }
    MatchedLevelFits(m, d);
  }

  lemma MatchedLevelFits(m: Machine, d: Doc)
    requires Matches(m, d)
    ensures |m.storage| <= m.capacity
    ensures forall i :: 0 <= i < |m.stack| ==> |m.stack[i].buf| <= m.capacity
  {
  }

  lemma StepMatches(m: Machine, d: Doc, op: Op, m': Machine)
    requires Matches(m, d) && m.capacity < UINT32_RANGE && LegalOp(op) && Step(m, op) == Some(m')
    ensures Matches(m', Apply(d, op)) && m'.capacity == m.capacity
    ensures op.End? ==> d.open != []
  {
    hide LevelMatches, Emit;
    match op
    case Write(x) =>
      LegalLeaf(x);
      EmitMatches(m, d, x, m');
      EmitKeepsCapacity(m, ItemTag(x), ItemValue(x));
    case Begin(tag) =>
      EmptyLevel(m.capacity);
    case End =>
      EndMatches(m, d, m');
  }

  lemma EmitKeepsCapacity(m: Machine, tag: byte, value: bytes)
    ensures Emit(m, tag, value).Some? ==> Emit(m, tag, value).value.capacity == m.capacity
  {
  }

  lemma EndMatches(m: Machine, d: Doc, m': Machine)
    requires Matches(m, d) && m.capacity < UINT32_RANGE && Step(m, End) == Some(m')
    ensures Matches(m', Apply(d, End)) && m'.capacity == m.capacity
  {
    hide LevelMatches, Emit, Encoding, Legal, ValueOf;
    var k := |m.stack| - 1;
    var frame, l := m.stack[k], d.open[k];
    var x := Container(l.tag, l.items);
    var m0, d0 := m.(stack := m.stack[..k]), d.(open := d.open[..k]);
    ClosedLevel(m.capacity, frame.buf, l.tag, l.items);
    EmitKeepsCapacity(m0, frame.tag, frame.buf);
    EmitMatches(m0, d0, x, m');
  }

  lemma ClosedLevel(capacity: nat, buf: bytes, tag: byte, xs: seq<Item>)
    requires LevelMatches(capacity, buf, xs) && capacity < UINT32_RANGE && (tag == SEQUENCE || tag == SET)
    ensures buf[..|buf| % UINT32_RANGE] == buf == ValueOf(Container(tag, xs))
    ensures Legal([Container(tag, xs)])
  {
    LegalContainer(Container(tag, xs));
    hide Legal, Encode;
    assert |buf| % UINT32_RANGE == |buf|;
  }

  lemma LegalLeaf(x: Item)
    requires Writable(x)
    ensures Legal([x])
  {
    assert Legal([x][1..]);
  }

  lemma LegalContainer(x: Item)
    requires x.Container? && (x.tag == SEQUENCE || x.tag == SET) && Legal(x.items)
    ensures Legal([x])
  {
    assert Legal([x][1..]);
  }

  lemma EmptyLevel(capacity: nat)
    ensures LevelMatches(capacity, [], [])
  {
  }

  /** In every state reached by successful calls, each buffer holds the encoding
      of the items closed at its level. */
  lemma {:induction false} RunMatches(m: Machine, d: Doc, ops: seq<Op>, m': Machine)
    requires AllLegal(ops)
    requires Matches(m, d) && m.capacity < UINT32_RANGE && Run(m, ops) == Some(m')
    ensures Matches(m', Build(d, ops)) && m'.capacity == m.capacity
    decreases |ops|
  {
    hide Matches, Step, Apply;
    if ops != [] {
      var m1 := Step(m, ops[0]).value;
      StepMatches(m, d, ops[0], m1);
      RunMatches(m1, Apply(d, ops[0]), ops[1..], m');
    }
  }

  const EMPTY_DOC: Doc := Doc([], [])

  // ---------------------------------------------------------------- writing a given forest

  /** The calls that write the items one after the other. */
  function Calls(xs: seq<Item>): seq<Op>
    decreases xs
  {
    if xs == [] then []
    else
      (if xs[0].Container? then [Begin(xs[0].tag)] + Calls(xs[0].items) + [End] else [Write(xs[0])]) + Calls(xs[1..])
  }

  lemma {:induction false} CallsAreLegal(xs: seq<Item>)
    requires Legal(xs)
    ensures AllLegal(Calls(xs))
    decreases xs
  {
    if xs != [] {
      CallsAreLegal(xs[1..]);
      if xs[0].Container? {
        CallsAreLegal(xs[0].items);
      }
    }
  }

  lemma {:induction false} BuildAppend(d: Doc, xs: seq<Op>, ys: seq<Op>)
    ensures Build(d, xs + ys) == Build(Build(d, xs), ys)
    decreases |xs|
  {
    if xs == [] {
      assert xs + ys == ys;
    } else {
      assert (xs + ys)[1..] == xs[1..] + ys;
      BuildAppend(Apply(d, xs[0]), xs[1..], ys);
      hide Apply;
    }
  }

  function AddItems(d: Doc, xs: seq<Item>): Doc {
    if d.open == [] then d.(root := d.root + xs)
    else
      var l := d.open[|d.open| - 1];
      d.(open := d.open[|d.open| - 1 := l.(items := l.items + xs)])
  }

  lemma AddMore(d: Doc, x: Item, ys: seq<Item>)
    ensures AddItems(AddItem(d, x), ys) == AddItems(d, [x] + ys)
  {
    if d.open == [] {
      Assoc(d.root, [x], ys);
    } else {
      Assoc(d.open[|d.open| - 1].items, [x], ys);
    }
  }

  lemma AddNone(d: Doc)
    ensures AddItems(d, []) == d
  {
    AppendNothing(d.root, []);
    if d.open != [] {
      AppendNothing(d.open[|d.open| - 1].items, []);
      assert d.open[|d.open| - 1 := d.open[|d.open| - 1]] == d.open;
    }
  }

  lemma BuildOne(d: Doc, op: Op)
    ensures Build(d, [op]) == Apply(d, op)
  {
    assert [op][1..] == [];
    assert Build(Apply(d, op), []) == Apply(d, op);
  }

  lemma ClosesWhatWasOpened(d: Doc, tag: byte, items: seq<Item>)
    ensures Apply(AddItems(Apply(d, Begin(tag)), items), End) == AddItem(d, Container(tag, items))
  {
    var d' := AddItems(Apply(d, Begin(tag)), items);
    AppendNothing(items, []);
    assert d'.open == d.open + [Level(tag, items)];
    assert d'.open[..|d.open|] == d.open;
  }

  lemma {:induction false} CallsBuild(d: Doc, xs: seq<Item>)
    ensures Build(d, Calls(xs)) == AddItems(d, xs)
    decreases xs
  {
    if xs == [] {
      AddNone(d);
    } else {
      var x, rest := xs[0], xs[1..];
      var first := if x.Container? then [Begin(x.tag)] + Calls(x.items) + [End] else [Write(x)];
      assert Calls(xs) == first + Calls(rest);
      if x.Container? {
        var d' := Apply(d, Begin(x.tag));
        CallsBuild(d', x.items);
        hide Calls, Apply, AddItem, AddItems, Build;
        BuildOne(d, Begin(x.tag));
        BuildAppend(d, [Begin(x.tag)], Calls(x.items));
        BuildAppend(d, [Begin(x.tag)] + Calls(x.items), [End]);
        BuildOne(AddItems(d', x.items), End);
        ClosesWhatWasOpened(d, x.tag, x.items);
        assert x == Container(x.tag, x.items);
      } else {
        BuildOne(d, Write(x));
      }
      assert Build(d, first) == AddItem(d, x);
      hide Calls, Apply, AddItem, AddItems, Build;
      BuildAppend(d, first, Calls(rest));
      CallsBuild(AddItem(d, x), rest);
      AddMore(d, x, rest);
      assert [x] + rest == xs;
    }
  }

  // ---------------------------------------------------------------- reading it back

  /** What the decoder reports for one item, without what is inside it. */
  function ReportedItem(x: Item): Tlv {
    match x
    case Integer(v) =>
      var w := if v != [] && v[0] == 0 then v[1..] else v;
      Tlv(INTEGER, |w|, 0, w)
    case Boolean(f) => Tlv(BOOLEAN, 1, 0, [if f then 0xff else 0x00])
    case Null => Tlv(NULL, 0, 0, [])
    case BitString(v) => Tlv(BIT_STRING, |v|, 0, v)
    case OctetString(v) => Tlv(OCTET_STRING, |v|, 0, v)
    case Container(tag, items) => Tlv(tag, |Encode(items)|, |items|, Encode(items))
  }

  /** What the decoder reports for the items, in pre-order. */
  function Reported(xs: seq<Item>): seq<Tlv>
    decreases xs
  {
    if xs == [] then []
    else [ReportedItem(xs[0])] + (if xs[0].Container? then Reported(xs[0].items) else []) + Reported(xs[1..])
  }

  /** An integer without leading zeros is reported as written; in any case its
      unsigned value is kept. */
  lemma IntegersKeepTheirValue(v: bytes)
    requires v != []
    ensures v[0] != 0 ==> ReportedItem(Integer(v)).value == v
    ensures FromBigEndian(ReportedItem(Integer(v)).value) == FromBigEndian(v)
  {
    if v[0] == 0 {
      LeadingZero(v[1..]);
      assert v == [0] + v[1..];
    }
  }

  /** The deepest nesting of containers. */
  function Depth(xs: seq<Item>): nat
    decreases xs
  {
    if xs == [] then 0
    else Max(if xs[0].Container? then 1 + Depth(xs[0].items) else 0, Depth(xs[1..]))
  }

  lemma FirstNode(xs: seq<Item>)
    requires xs != []
    ensures Nodes(xs) == [NodeOf(xs[0])] + Nodes(xs[1..])
    ensures Nodes(xs)[1..] == Nodes(xs[1..]) && Nodes(xs)[0] == NodeOf(xs[0])
    ensures NodeOf(xs[0]).Cons? <==> xs[0].Container?
    ensures xs[0].Container? ==> NodeOf(xs[0]).children == Nodes(xs[0].items)
  {
    assert [xs[0]][1..] == [];
    assert Nodes([xs[0]]) == [NodeOf(xs[0])] + [];
  }

  lemma {:induction false} NestingOfNodes(xs: seq<Item>)
    ensures Nesting(Nodes(xs)) == Depth(xs)
    decreases xs
  {
    if xs != [] {
      FirstNode(xs);
      NestingOfNodes(xs[1..]);
      if xs[0].Container? {
        NestingOfNodes(xs[0].items);
      }
      hide Nodes, NodeOf;
    }
  }

  lemma EntryOfItem(x: Item)
    requires Legal([x])
    ensures Entry(NodeOf(x)) == ReportedItem(x)
  {
    FirstNode([x]);
    NodeOfItem(x);
    var c := Content(ItemTag(x), ValueOf(x));
    match x
    case Integer(v) => assert v[0] >= 0x80 ==> c[1..] == v;
    case BitString(v) => assert c[1..] == v;
    case _ =>
  }

  lemma LegalFirst(xs: seq<Item>)
    requires Legal(xs) && xs != []
    ensures Legal([xs[0]]) && Legal(xs[1..])
    ensures xs[0].Container? ==> Legal(xs[0].items)
  {
    assert Legal([xs[0]][1..]);
  }

  lemma {:induction false} FlattenOfNodes(xs: seq<Item>)
    requires Legal(xs)
    ensures Flatten(Nodes(xs)) == Reported(xs)
    decreases xs
  {
    if xs != [] {
      LegalFirst(xs);
      FirstNode(xs);
      EntryOfItem(xs[0]);
      FlattenOfNodes(xs[1..]);
      if xs[0].Container? {
        FlattenOfNodes(xs[0].items);
      }
      hide Nodes, NodeOf, Entry, ReportedItem, Legal;
    }
  }

  lemma NodeFits(x: Item)
    requires Legal([x]) && |Content(ItemTag(x), ValueOf(x))| < UINT32_RANGE
    ensures var n := NodeOf(x);
            && FormFits(n.form, |Body(n)|) && BodyOk(n.tag, Body(n)) && n.tag != NEWLINE
            && (n.Cons? <==> Constructed(n.tag))
  {
    LegalShape(x);
    ItemTags(x);
    ContentFits(x);
    FirstNode([x]);
    NodeOfItem(x);
    hide *;
  }

  lemma ItemTags(x: Item)
    requires if x.Container? then x.tag == SEQUENCE || x.tag == SET else Writable(x)
    ensures ItemTag(x) != NEWLINE && (x.Container? <==> Constructed(ItemTag(x)))
  {
  }

  lemma ContentFits(x: Item)
    requires |Content(ItemTag(x), ValueOf(x))| < UINT32_RANGE && (x.Integer? ==> x.value != [])
    requires x.Container? ==> x.tag == SEQUENCE || x.tag == SET
    ensures var c := Content(ItemTag(x), ValueOf(x)); FormFits(FormFor(|c|), |c|) && BodyOk(ItemTag(x), c)
  {
    hide Encode;
  }

  lemma EncodeFirst(xs: seq<Item>)
    requires xs != []
    ensures |Encode(xs)| == |Print([NodeOf(xs[0])])| + |Encode(xs[1..])|
    ensures Legal([xs[0]]) ==> |Content(ItemTag(xs[0]), ValueOf(xs[0]))| <= |Print([NodeOf(xs[0])])|
  {
    FirstNode(xs);
    PrintAppend([NodeOf(xs[0])], Nodes(xs[1..]));
    if Legal([xs[0]]) {
      NodeOfItem(xs[0]);
      PrintOne(NodeOf(xs[0]));
    }
    hide *;
  }

  lemma {:induction false} NodesAreWellFormed(xs: seq<Item>)
    requires Legal(xs) && |Encode(xs)| < UINT32_RANGE
    ensures WellFormed(Nodes(xs))
    decreases xs
  {
    hide Nodes, NodeOf, Legal, FormFits, BodyOk, Constructed, Encode, Content, ValueOf;
    if xs != [] {
      LegalFirst(xs);
      FirstNode(xs);
      EncodeFirst(xs);
      NodeFits(xs[0]);
      NodesAreWellFormed(xs[1..]);
      if xs[0].Container? {
        ContainerContent(xs[0]);
        NodesAreWellFormed(xs[0].items);
      }
      if |xs| > 1 {
        LegalFirst(xs[1..]);
        FirstNode(xs[1..]);
        TagIsNotNewline(xs[1]);
      }
    } else {
      assert Nodes(xs) == [];
    }
  }

  lemma ContainerContent(x: Item)
    requires x.Container? && Legal([x])
    ensures Content(ItemTag(x), ValueOf(x)) == Encode(x.items)
  {
  }

  lemma TagIsNotNewline(x: Item)
    requires Legal([x])
    ensures NodeOf(x).tag != NEWLINE
  {
    FirstNode([x]);
    NodeOfItem(x);
  }

  /** The encoding of a document parses if and only if it is nested at most 15
      deep, and the decoder then reports exactly its items. */
  lemma EncodingReadsBack(xs: seq<Item>)
    requires Legal(xs) && |Encode(xs)| < UINT32_RANGE
    ensures Parse(Encode(xs), 1).Forest? <==> Depth(xs) <= 15
    ensures Depth(xs) <= 15 ==> Flatten(Parse(Encode(xs), 1).nodes) == Reported(xs)
  {
    hide WellFormed, Parse, Print, Flatten, Reported, Nesting, Depth;
    NodesAreWellFormed(xs);
    NestingOfNodes(xs);
    FlattenOfNodes(xs);
    ParseOfPrint(Nodes(xs), 1);
  }

  /** Any balanced run of successful encoder calls, read back by the decoder. */
  lemma RunReadsBack(capacity: nat, ops: seq<Op>, m: Machine)
    requires AllLegal(ops)
    requires capacity < UINT32_RANGE && Run(Machine(capacity, [], []), ops) == Some(m) && m.stack == []
    ensures var xs := Build(EMPTY_DOC, ops).root;
            && m.storage == Encode(xs)
            && (Parse(m.storage, 1).Forest? <==> Depth(xs) <= 15)
            && (Depth(xs) <= 15 ==> Flatten(Parse(m.storage, 1).nodes) == Reported(xs))
  {
    hide LevelMatches, Run, Build, Encode, Parse, Flatten, Reported, Depth;
    EmptyLevel(capacity);
    RunMatches(Machine(capacity, [], []), EMPTY_DOC, ops, m);
    var xs := Build(EMPTY_DOC, ops).root;
    MatchedRoot(capacity, m.storage, xs);
    EncodingReadsBack(xs);
  }

  lemma MatchedRoot(capacity: nat, buf: bytes, xs: seq<Item>)
    requires LevelMatches(capacity, buf, xs)
    ensures buf == Encode(xs) && Legal(xs) && |Encode(xs)| <= capacity
  {
  }

  // ---------------------------------------------------------------- which forests fit

  /** The machine with e behind the contents of its current buffer, if it fits. */
  function Written(m: Machine, e: bytes): Option<Machine> {
    if |Top(m)| + |e| <= m.capacity then Some(WithTop(m, Top(m) + e)) else None
  }

  lemma TopOfWritten(m: Machine, e: bytes)
    ensures Written(m, e).Some? ==>
              var m' := Written(m, e).value;
              Top(m') == Top(m) + e && m'.capacity == m.capacity && |Top(m')| <= m.capacity
  {
  }

  lemma WithTopTwice(m: Machine, x: bytes, y: bytes)
    ensures WithTop(WithTop(m, x), y) == WithTop(m, y)
  {
    if m.stack != [] {
      var k := |m.stack| - 1;
      var f := m.stack[k];
      assert m.stack[k := Frame(f.tag, x)][k := Frame(f.tag, y)] == m.stack[k := Frame(f.tag, y)];
    }
  }

  lemma WrittenTwice(m: Machine, x: bytes, y: bytes)
    ensures Written(m, x + y) == match Written(m, x) case None => None case Some(m') => Written(m', y)
  {
    Assoc(Top(m), x, y);
    WithTopTwice(m, Top(m) + x, Top(m) + (x + y));
    TopOfWritten(m, x);
    hide WithTop, Top;
  }

  lemma WrittenNothing(m: Machine)
    requires |Top(m)| <= m.capacity
    ensures Written(m, []) == Some(m)
  {
    AppendNothing(Top(m), []);
    if m.stack != [] {
      assert m.stack[|m.stack| - 1 := m.stack[|m.stack| - 1]] == m.stack;
    }
  }

  lemma {:induction false} RunAppend(m: Machine, xs: seq<Op>, ys: seq<Op>)
    requires AllLegal(xs) && AllLegal(ys)
    ensures AllLegal(xs + ys)
    ensures Run(m, xs + ys) == match Run(m, xs) case None => None case Some(m') => Run(m', ys)
    decreases |xs|
  {
    if xs == [] {
      assert xs + ys == ys;
    } else {
      assert (xs + ys)[1..] == xs[1..] + ys;
      var next := Step(m, xs[0]);
      hide Step;
      if next.Some? {
        RunAppend(next.value, xs[1..], ys);
      }
    }
  }

  lemma RunOne(m: Machine, op: Op)
    requires LegalOp(op)
    ensures AllLegal([op]) && Run(m, [op]) == Step(m, op)
  {
    hide Step;
    assert [op][1..] == [];
  }

  /** The calls for one item. */
  function FirstCalls(x: Item): seq<Op> {
    if x.Container? then [Begin(x.tag)] + Calls(x.items) + [End] else [Write(x)]
  }

  lemma LeafRuns(m: Machine, x: Item)
    requires Writable(x)
    ensures AllLegal(FirstCalls(x)) && Run(m, FirstCalls(x)) == Emit(m, ItemTag(x), ValueOf(x))
  {
    hide Emit;
    RunOne(m, Write(x));
  }

  function Opened(m: Machine, tag: byte): Machine {
    m.(stack := m.stack + [Frame(tag, [])])
  }

  lemma ContainerOpens(m: Machine, tag: byte)
    requires tag == SEQUENCE || tag == SET
    ensures LegalOp(Begin(tag)) && Step(m, Begin(tag)) == Some(Opened(m, tag))
    ensures Top(Opened(m, tag)) == [] && Opened(m, tag).capacity == m.capacity
  {
  }

  lemma ContainerFilled(m: Machine, tag: byte, e: bytes)
    ensures Written(Opened(m, tag), e) ==
            if |e| <= m.capacity then Some(m.(stack := m.stack + [Frame(tag, e)])) else None
  {
    AppendNothing(e, []);
    assert Opened(m, tag).stack[|m.stack| := Frame(tag, e)] == m.stack + [Frame(tag, e)];
  }

  lemma ContainerCloses(m: Machine, tag: byte, e: bytes)
    requires m.capacity < UINT32_RANGE && (tag == SEQUENCE || tag == SET)
    ensures |e| <= m.capacity ==> Step(m.(stack := m.stack + [Frame(tag, e)]), End) == Emit(m, tag, e)
    ensures |e| > m.capacity ==> Emit(m, tag, e) == None
  {
    ContentWithinEncoding(tag, e);
    if |e| <= m.capacity {
      hide Emit;
      assert (m.stack + [Frame(tag, e)])[..|m.stack|] == m.stack;
      assert |e| % UINT32_RANGE == |e| && e[..|e|] == e;
    } else {
      hide Encoding;
    }
  }

  lemma ContainerRuns(m: Machine, x: Item)
    requires x.Container? && (x.tag == SEQUENCE || x.tag == SET) && m.capacity < UINT32_RANGE
    requires AllLegal(Calls(x.items))
    requires Run(Opened(m, x.tag), Calls(x.items)) == Written(Opened(m, x.tag), Encode(x.items))
    ensures AllLegal(FirstCalls(x)) && Run(m, FirstCalls(x)) == Emit(m, ItemTag(x), ValueOf(x))
  {
    hide *;
    var e, inner := Encode(x.items), Calls(x.items);
    ContainerFacts(x);
    ContainerOpens(m, x.tag);
    ContainerFilled(m, x.tag, e);
    ContainerCloses(m, x.tag, e);
    LegalEnd();
    RunOne(m, Begin(x.tag));
    RunThen(m, [Begin(x.tag)], inner, Opened(m, x.tag));
    if |e| <= m.capacity {
      var filled := m.(stack := m.stack + [Frame(x.tag, e)]);
      RunOne(filled, End);
      RunThen(m, [Begin(x.tag)] + inner, [End], filled);
    } else {
      RunStops(m, [Begin(x.tag)] + inner, [End]);
    }
  }

  lemma ContainerFacts(x: Item)
    requires x.Container?
    ensures ItemTag(x) == x.tag && ValueOf(x) == Encode(x.items)
    ensures FirstCalls(x) == [Begin(x.tag)] + Calls(x.items) + [End]
  {
    hide Encode, Calls;
  }

  lemma RunThen(m: Machine, xs: seq<Op>, ys: seq<Op>, m': Machine)
    requires AllLegal(xs) && AllLegal(ys) && Run(m, xs) == Some(m')
    ensures AllLegal(xs + ys) && Run(m, xs + ys) == Run(m', ys)
  {
    RunAppend(m, xs, ys);
    hide Run, AllLegal;
  }

  lemma RunStops(m: Machine, xs: seq<Op>, ys: seq<Op>)
    requires AllLegal(xs) && AllLegal(ys) && Run(m, xs) == None
    ensures AllLegal(xs + ys) && Run(m, xs + ys) == None
  {
    RunAppend(m, xs, ys);
    hide Run, AllLegal;
  }

  lemma LegalEnd()
    ensures LegalOp(End) && AllLegal([End])
  {
  }

  lemma CallsFirst(xs: seq<Item>)
    requires xs != []
    ensures Calls(xs) == FirstCalls(xs[0]) + Calls(xs[1..])
  {
  }

  lemma NoCalls(m: Machine)
    ensures Calls([]) == [] && AllLegal([]) && Run(m, []) == Some(m) && Encode([]) == []
  {
  }

  /** One item and the rest: what is written, or that neither can fit. */
  lemma FirstThenRest(m: Machine, xs: seq<Item>)
    requires xs != [] && Legal(xs) && m.capacity < UINT32_RANGE
    ensures Written(m, Encode(xs)) ==
            match Emit(m, ItemTag(xs[0]), ValueOf(xs[0]))
            case None => None
            case Some(m') => Written(m', Encode(xs[1..]))
  {
    var x := xs[0];
    var e := Encoding(ItemTag(x), ValueOf(x));
    LegalFirst(xs);
    EncodeFirst(xs);
    ContentWithinEncoding(ItemTag(x), ValueOf(x));
    assert Emit(m, ItemTag(x), ValueOf(x)) == Written(m, e);
    var small := |Content(ItemTag(x), ValueOf(x))| < UINT32_RANGE;
    if small {
      assert x.Container? ==> x.tag == SEQUENCE || x.tag == SET;
      EncodeOneMore([], x);
      EncodeEmpty();
      AppendNothing([x], []);
      AppendNothing(e, []);
      NodesAppend([x], xs[1..]);
      assert [x] + xs[1..] == xs;
      PrintAppend(Nodes([x]), Nodes(xs[1..]));
      assert Encode(xs) == e + Encode(xs[1..]);
    }
    hide Encode, Encoding, Content, ValueOf, ItemTag, Emit, Legal, Nodes, Print;
    if small {
      WrittenTwice(m, e, Encode(xs[1..]));
    }
  }

  /** The calls that write a forest succeed if and only if its encoding fits, and
      then write exactly that. */
  lemma {:induction false} CallsRun(m: Machine, xs: seq<Item>)
    requires Legal(xs) && m.capacity < UINT32_RANGE && |Top(m)| <= m.capacity
    ensures AllLegal(Calls(xs)) && Run(m, Calls(xs)) == Written(m, Encode(xs))
    decreases xs
  {
    hide Run, Written, Encode, Legal, Top, Emit, ItemTag, ValueOf, Calls, FirstCalls, AllLegal, Step;
    if xs == [] {
      NoCalls(m);
      WrittenNothing(m);
    } else {
      var x := xs[0];
      LegalFirst(xs);
      LegalShape(x);
      if x.Container? {
        ContainerOpens(m, x.tag);
        CallsRun(Opened(m, x.tag), x.items);
        ContainerRuns(m, x);
      } else {
        LeafRuns(m, x);
      }
      FirstThenRest(m, xs);
      CallsFirst(xs);
      CallsAreLegal(xs[1..]);
      RunAppend(m, FirstCalls(x), Calls(xs[1..]));
      EmitTop(m, ItemTag(x), ValueOf(x));
      if Emit(m, ItemTag(x), ValueOf(x)).Some? {
        CallsRun(Emit(m, ItemTag(x), ValueOf(x)).value, xs[1..]);
      }
    }
  }

  lemma EmitTop(m: Machine, tag: byte, value: bytes)
    ensures Emit(m, tag, value).Some? ==>
              var m' := Emit(m, tag, value).value; m'.capacity == m.capacity && |Top(m')| <= m'.capacity
  {
    TopOfWritten(m, Encoding(tag, value));
    hide Encoding;
  }

  lemma LegalShape(x: Item)
    requires Legal([x])
    ensures if x.Container? then x.tag == SEQUENCE || x.tag == SET else Writable(x)
  {
  }

  /** Every forest can be written: from an empty encoder its calls build it, and
      succeed if and only if the capacity holds its encoding. */
  lemma ForestIsWritten(capacity: nat, xs: seq<Item>)
    requires Legal(xs) && capacity < UINT32_RANGE
    ensures AllLegal(Calls(xs)) && Build(EMPTY_DOC, Calls(xs)) == Doc(xs, [])
    ensures Run(Machine(capacity, [], []), Calls(xs)) ==
            if |Encode(xs)| <= capacity then Some(Machine(capacity, Encode(xs), [])) else None
  {
    CallsBuild(EMPTY_DOC, xs);
    AppendNothing(xs, []);
    AppendNothing(Encode(xs), []);
    hide Run, Encode, Legal, Calls, Build;
    CallsRun(Machine(capacity, [], []), xs);
  }

  // ---------------------------------------------------------------- newlines at the end

  /** The forest with k more newlines after its last element. */
  function Trailed(ns: seq<Node>, k: nat): (ms: seq<Node>)
    requires ns != []
    ensures |ms| == |ns| && ms[0].tag == ns[0].tag
  {
    if |ns| == 1 then [ns[0].(newlines := ns[0].newlines + k)] else [ns[0]] + Trailed(ns[1..], k)
  }

  lemma TrailedRest(ns: seq<Node>, k: nat)
    requires |ns| > 1
    ensures Trailed(ns, k)[0] == ns[0] && Trailed(ns, k)[1..] == Trailed(ns[1..], k)
  {
  }

  lemma TrailedOne(n: Node, k: nat)
    requires WellFormed([n])
    ensures var m := n.(newlines := n.newlines + k);
            && WellFormed([m]) && Nesting([m]) == Nesting([n]) && Flatten([m]) == Flatten([n])
            && Print([m]) == Print([n]) + Repeat(NEWLINE, k)
  {
    var m := n.(newlines := n.newlines + k);
    assert [m][1..] == [] == [n][1..];
    PrintFirst([m]);
    PrintFirst([n]);
    AppendNothing(PrintedElement(m), Print([]));
    AppendNothing(PrintedElement(n), Print([]));
    assert Repeat(NEWLINE, n.newlines + k) == Repeat(NEWLINE, n.newlines) + Repeat(NEWLINE, k);
    Assoc([n.tag] + LengthOctets(n.form, |Body(n)|) + Body(n), Repeat(NEWLINE, n.newlines), Repeat(NEWLINE, k));
    hide LengthOctets, FormFits, BodyOk, Constructed;
  }

  lemma WellFormedRest(ns: seq<Node>)
    requires ns != [] && WellFormed(ns)
    ensures WellFormed(ns[1..])
  {
  }

  /** A forest depends on what follows its first element only through that. */
  lemma SameFront(ns: seq<Node>, ms: seq<Node>)
    requires |ns| > 1 && |ms| > 1 && ms[0] == ns[0] && ms[1].tag == ns[1].tag
    requires WellFormed(ns) && WellFormed(ms[1..])
    requires Nesting(ms[1..]) == Nesting(ns[1..]) && Flatten(ms[1..]) == Flatten(ns[1..])
    ensures WellFormed(ms) && Nesting(ms) == Nesting(ns) && Flatten(ms) == Flatten(ns)
  {
    hide Print, FormFits, BodyOk, Constructed, Entry;
  }

  lemma {:induction false} TrailedForest(ns: seq<Node>, k: nat)
    requires ns != [] && WellFormed(ns)
    ensures var ms := Trailed(ns, k);
            && WellFormed(ms) && Nesting(ms) == Nesting(ns) && Flatten(ms) == Flatten(ns)
            && Print(ms) == Print(ns) + Repeat(NEWLINE, k)
    decreases |ns|
  {
    if |ns| == 1 {
      assert ns == [ns[0]];
      TrailedOne(ns[0], k);
    } else {
      WellFormedRest(ns);
      hide *;
      TrailedForest(ns[1..], k);
      TrailedRest(ns, k);
      SameFront(ns, Trailed(ns, k));
      PrintFirst(ns);
      PrintFirst(Trailed(ns, k));
      Assoc(PrintedElement(ns[0]), Print(ns[1..]), Repeat(NEWLINE, k));
    }
  }

  /** Newlines at the end of an input do not change the list it decodes to. */
  lemma TrailingNewlines(b: bytes, k: nat)
    requires b != [] && Parse(b, 1).Forest?
    ensures var p := Parse(b + Repeat(NEWLINE, k), 1);
            p.Forest? && Flatten(p.nodes) == Flatten(Parse(b, 1).nodes)
  {
    var ns := Parse(b, 1).nodes;
    PrintOfParse(b, 1);
    ParseNothing(1);
    hide *;
    TrailedForest(ns, k);
    ParseOfPrint(Trailed(ns, k), 1);
  }
}
