/** The decoder of source/der.c: a recursive parser over a cursor that flattens
    the elements it meets into one list, in order. */
module DerDecoder {
  import opened Bytes
  import opened DerSyntax
  import opened DerList

  // ---------------------------------------------------------------- reading one element

  datatype Status = Ok | MalformedInput | LeavesInput

  function StatusOf(p: Parsed): Status {
    match p
    case Forest(_) => Ok
    case Malformed => MalformedInput
    case OutOfBounds => LeavesInput
  }

  /** The tag and length octets read by s_der_read_tlv. */
  method ReadTagAndLength(cur: bytes) returns (ok: bool, tag: byte, len: nat, rest: bytes)
    ensures var h := ReadHeader(cur);
            && (ok <==> h.Header?)
            && (ok ==> h.tag == tag && h.len == len && rest == cur[1 + FormSize(h.form)..])
    ensures ok ==> |cur| >= 2 && tag == cur[0] && (cur[1] < 0x80 || cur[1] == 0x81 || cur[1] == 0x82 || cur[1] == 0x84)
    ensures ok && cur[1] < 0x80 ==> len == cur[1] && rest == cur[2..]
    ensures ok && cur[1] == 0x81 ==> |cur| >= 3 && len == cur[2] && rest == cur[3..]
    ensures ok && cur[1] == 0x82 ==> |cur| >= 4 && len == 0x100 * (cur[2] as int) + cur[3] && rest == cur[4..]
    ensures ok && cur[1] == 0x84 ==>
              && |cur| >= 6 && rest == cur[6..]
              && len == 0x100_0000 * (cur[2] as int) + 0x1_0000 * (cur[3] as int) + 0x100 * (cur[4] as int) + cur[5]
  {
    LengthReadIs(cur);
    ok, tag, len, rest := false, 0, 0, cur;
    if |cur| < 2 {
      return;
    }
    tag, rest := cur[0], cur[2..];
    var lenBytes := cur[1];
    if lenBytes >= 0x80 {
      lenBytes := lenBytes - 0x80;
      if lenBytes == 1 {
        if |rest| < 1 {
          return;
        }
        len, rest := rest[0], rest[1..];
      } else if lenBytes == 2 {
        if |rest| < 2 {
          return;
        }
        assert cur[2..4] == rest[..2];
        len, rest := FromBigEndian(rest[..2]), rest[2..];
      } else if lenBytes == 4 {
        if |rest| < 4 {
          return;
        }
        assert cur[2..6] == rest[..4];
        len, rest := FromBigEndian(rest[..4]), rest[4..];
      } else {
        return;
      }
    } else {
      len := lenBytes;
    }
    ok := true;
  }

  /** s_decode_tlv, and NULL's missing value. Without a first byte, INTEGER and
      BIT STRING would reach outside their value. */
  method DecodeTlv(tag: byte, body: bytes) returns (ok: bool, tlv: Tlv)
    ensures ok <==> BodyOk(tag, body)
    ensures ok ==> tlv == NewEntry(tag, body)
    ensures ok ==> tlv.tag == tag && tlv.count == 0
    ensures ok && tag == 0x02 ==>
              body == (if body[0] == 0 then [0] else []) + tlv.value && tlv.length == |tlv.value|
    ensures ok && tag == 0x03 ==> body == body[..1] + tlv.value && tlv.length == |tlv.value|
    ensures ok && tag == 0x05 ==> tlv.value == [] && tlv.length == |body|
    ensures ok && tag != 0x02 && tag != 0x03 && tag != 0x05 ==> tlv.value == body && tlv.length == |body|
  {
    var length, value := |body|, body;
    if tag == INTEGER {
      if length == 0 {
        return false, Tlv(tag, length, 0, value);
      }
      if value[0] == 0 {
        length, value := length - 1, value[1..];
      }
    } else if tag == BIT_STRING {
      if length == 0 {
        return false, Tlv(tag, length, 0, value);
      }
      length, value := length - 1, value[1..];
    } else if tag == NULL {
      value := [];
    }
    return true, Tlv(tag, length, 0, value);
  }

  /** s_der_read_tlv. The source advances without comparing the length with the
      bytes left; the model stops with LeavesInput where that matters. */
  method ReadTlv(cur: bytes) returns (status: Status, tlv: Tlv, rest: bytes)
    ensures var c := CutFirst(cur);
            && (status == MalformedInput <==> c.CutMalformed?)
            && (status == LeavesInput <==> c.CutOutOfBounds?)
            && (status == Ok ==>
                  && tlv == NewEntry(c.tag, c.body)
                  && Newlines(rest) == c.newlines && rest[Newlines(rest)..] == c.rest)
  {
    hide ReadHeader, NewEntry, Newlines, BodyOk;
    tlv := Tlv(0, 0, 0, []);
    var ok, tag, len;
    ok, tag, len, rest := ReadTagAndLength(cur);
    if !ok {
      return MalformedInput, tlv, rest;
    }
    if len > |rest| {
      return LeavesInput, tlv, rest;
    }
    ghost var start := 1 + FormSize(ReadHeader(cur).form);
    assert rest[..len] == cur[start..start + len] && rest[len..] == cur[start + len..];
    ok, tlv := DecodeTlv(tag, rest[..len]);
    if !ok {
      return LeavesInput, tlv, rest;
    }
    return Ok, tlv, rest[len..];
  }

  method SkipNewlines(cur: bytes) returns (rest: bytes)
    ensures rest == cur[Newlines(cur)..]
  {
    rest := cur;
    while |rest| > 0 && rest[0] == NEWLINE
      invariant |rest| <= |cur| && rest == cur[|cur| - |rest|..]
      invariant Newlines(cur) == |cur| - |rest| + Newlines(rest)
    {
      rest := rest[1..];
    }
  }

  // ---------------------------------------------------------------- the parser

  /** A pointer to an entry: good only while the storage has been replaced as
      often as when it was taken. */
  datatype Ref = Null | Ref(epoch: nat, index: nat)

  /** The list with k more elements counted by the container that ref points to. */
  function Tally(ts: seq<Tlv>, ref: Ref, k: nat): (ts': seq<Tlv>)
    ensures |ts'| == |ts|
  {
    if ref.Ref? && ref.index < |ts| then
      ts[ref.index := ts[ref.index].(count := ts[ref.index].count + k)]
    else
      ts
  }

  /** Of elements stored from position `at` on, how many are counted through ref,
      and whether some would be counted in storage that is gone. */
  function Met(ref: Ref, ns: seq<Node>, at: nat): nat {
    if ref.Ref? then Reached(ns, at, ref.epoch) else 0
  }

  ghost predicate Lost(ref: Ref, ns: seq<Node>, at: nat) {
    ref.Ref? && Strays(ns, at, ref.epoch)
  }

  function MetOne(ref: Ref, at: nat): nat {
    if ref.Ref? && ref.epoch == Growths(at) then 1 else 0
  }

  ghost predicate LostOne(ref: Ref, at: nat) {
    ref.Ref? && ref.epoch != Growths(at)
  }

  function PrependAll(ns: seq<Node>, p: Parsed): Parsed {
    match p
    case Forest(ms) => Forest(ns + ms)
    case _ => p
  }

  /** What parsing at the given outer depth makes of cur. */
  function ParseAt(cur: bytes, depth: nat): Parsed {
    if depth >= MAX_DEPTH then Malformed else Parse(cur, depth + 1)
  }

  class Decoder {
    const input: bytes
    var tlvs: seq<Tlv>
    var capacity: nat
    var epoch: nat
    var depth: nat
    var container: Ref
    var tlvIdx: int

    /** A count was written through a pointer to storage already replaced. */
    ghost var stale: bool

    ghost predicate Valid()
      reads this
    {
      && depth <= MAX_DEPTH
      && |tlvs| <= capacity == Capacity(epoch)
      && (epoch > 0 ==> capacity < 2 * |tlvs|)
      && (container.Ref? ==> container.index < |tlvs| && container.epoch == Growths(container.index))
    }

    constructor (input: bytes)
      ensures Valid() && this.input == input && tlvs == [] && depth == 0 && !stale
      ensures container == Null && tlvIdx == -1
    {
      this.input := input;
      tlvs, capacity, epoch := [], INITIAL_ENTRIES, 0;
      depth, container, tlvIdx := 0, Null, -1;
      stale := false;
    }

    /** aws_array_list_push_back: full storage is replaced by twice as much, and
        pointers into the old storage no longer reach the list. */
    method Push(tlv: Tlv)
      requires Valid()
      modifies this`tlvs, this`capacity, this`epoch
      ensures Valid()
      ensures tlvs == old(tlvs) + [tlv] && epoch == Growths(|old(tlvs)|)
    {
      hide Growths;
      if |tlvs| == capacity {
        capacity, epoch := 2 * capacity, epoch + 1;
      }
      GrowthsIs(|tlvs|, epoch);
      tlvs := tlvs + [tlv];
    }

    /** container->count++, lost when the list has moved away under it. */
    method CountElement(ghost at: nat)
      requires Valid() && epoch == Growths(at)
      modifies this`tlvs, this`stale
      ensures Valid()
      ensures tlvs == Tally(old(tlvs), container, MetOne(container, at))
      ensures stale == (old(stale) || LostOne(container, at))
    {
      hide Growths;
      if container.Ref? {
        if container.epoch == epoch {
          var c := tlvs[container.index];
          tlvs := tlvs[container.index := c.(count := c.count + 1)];
        } else {
          stale := true;
        }
      }
    }

    /** s_parse_cursor: succeeds exactly when ParseAt does, appends the forest as
        stored, counts its elements as far as their container is still in place,
        and restores depth and container. */
    method ParseCursor(cur: bytes) returns (status: Status)
      requires Valid()
      modifies this`tlvs, this`capacity, this`epoch, this`depth, this`container, this`stale
      ensures status == StatusOf(ParseAt(cur, old(depth)))
      ensures status == Ok ==> Valid() && depth == old(depth) && container == old(container)
      ensures status == Ok ==>
                var ns, at := ParseAt(cur, old(depth)).nodes, |old(tlvs)|;
                && tlvs == Tally(old(tlvs), container, Met(container, ns, at)) + Stored(ns, at)
                && stale == (old(stale) || Lost(container, ns, at) || Crosses(ns, at))
      decreases |cur|, 1
    {
      hide Parse, CutFirst, Constructed, Tally, Flatten, FlattenNode, Stored, StoredNode, Crosses, CrossesNode;
      hide Met, MetOne, Lost, LostOne, Growths, Capacity;
      if depth >= MAX_DEPTH {
        return MalformedInput;
      }
      depth := depth + 1;
      var rest := cur;
      ghost var d, done, at := depth, [], |tlvs|;
      NothingDone(tlvs, container);
      while |rest| > 0
        invariant Valid() && depth == d && container == old(container)
        invariant |rest| <= |cur|
        invariant Parse(cur, d) == PrependAll(done, Parse(rest, d))
        invariant tlvs == Tally(old(tlvs), container, Met(container, done, at)) + Stored(done, at)
        invariant stale == (old(stale) || Lost(container, done, at) || Crosses(done, at))
        decreases |rest|
      {
        ghost var cut, before := CutFirst(rest), tlvs;
        ParseStep(rest, d);
        StoredLength(done, at);
        status, rest := ParseElement(rest);
        if status != Ok {
          return;
        }
        ghost var n := FirstNode(cut, d);
        PrependOne(done, n, Parse(rest, d));
        OneMore(old(tlvs), container, done, n);
        done := done + [n];
      }
      depth := depth - 1;
      ParseNothing(d);
      AppendNothing(done, []);
      return Ok;
    }

    /** One turn of the loop of s_parse_cursor: an element, the newlines after it
        and everything inside it. */
    method ParseElement(cur: bytes) returns (status: Status, rest: bytes)
      requires Valid() && depth >= 1 && |cur| > 0
      modifies this`tlvs, this`capacity, this`epoch, this`depth, this`container, this`stale
      ensures status == FirstStatus(CutFirst(cur), old(depth))
      ensures status == Ok ==> Valid() && depth == old(depth) && container == old(container)
      ensures status == Ok ==>
                var c, at := CutFirst(cur), |old(tlvs)|;
                var n := FirstNode(c, depth);
                && rest == c.rest
                && tlvs == Tally(old(tlvs), container, MetOne(container, at)) + StoredNode(n, at)
                && stale == (old(stale) || LostOne(container, at) || CrossesNode(n, at))
      decreases |cur|, 0
    {
      hide Parse, CutFirst, Constructed, NewEntry, Tally, Flatten, FlattenNode, Stored, StoredNode, Crosses, CrossesNode;
      hide Met, MetOne, Lost, LostOne, Growths, Capacity;
      ghost var c, ts, at := CutFirst(cur), tlvs, |tlvs|;
      var tlv;
      status, tlv, rest := ReadTlv(cur);
      if status != Ok {
        return;
      }
      rest := SkipNewlines(rest);
      Push(tlv);
      CountElement(at);
      PushAndCount(ts, container, tlv, MetOne(container, at));
      NewEntryTag(c.tag, c.body);
      if Constructed(tlv.tag) {
        var outer := container;
        ghost var q := Tally(ts, outer, MetOne(outer, at));
        container := Ref(epoch, |tlvs| - 1);
        status := ParseCursor(tlv.value);
        if status != Ok {
          return;
        }
        StoredCons(c, depth, at);
        Nested(q, tlv, ParseAt(c.body, depth).nodes, FirstNode(c, depth));
        container := outer;
      } else {
        StoredPrim(c, depth, at);
      }
    }

    // -------------------------------------------------------------- iteration

    /** aws_der_decoder_next */
    method Next() returns (more: bool)
      modifies this`tlvIdx
      ensures tlvIdx == old(tlvIdx) + 1
      ensures more <==> tlvIdx < |tlvs|
    {
      tlvIdx := tlvIdx + 1;
      more := tlvIdx < |tlvs|;
    }

    predicate HasCurrent()
      reads this
    {
      0 <= tlvIdx < |tlvs|
    }

    function TlvType(): byte
      requires HasCurrent()
      reads this
    {
      tlvs[tlvIdx].tag
    }

    /** aws_der_decoder_tlv_string */
    function TlvString(): (r: Option<bytes>)
      requires HasCurrent()
      reads this
    {
      if TlvType() == OCTET_STRING || TlvType() == BIT_STRING then Some(tlvs[tlvIdx].value) else None
    }

    /** aws_der_decoder_tlv_integer */
    function TlvInteger(): (r: Option<bytes>)
      requires HasCurrent()
      reads this
    {
      if TlvType() == INTEGER then Some(tlvs[tlvIdx].value) else None
    }

    /** aws_der_decoder_tlv_blob, which NULL does not have */
    function TlvBlob(): bytes
      requires HasCurrent() && TlvType() != NULL
      reads this
    {
      tlvs[tlvIdx].value
    }
  }

  /** What is made of input through a decoder: something, nothing because it is
      malformed, or nothing that the input alone determines. */
  datatype FromDer<+T> = Read(value: T) | NotDer | BeyondInput

  function Failed<T>(status: Status): FromDer<T> {
    if status == LeavesInput then BeyondInput else NotDer
  }

  /** aws_der_decoder_new: none for malformed input, one over every well-formed
      input nested at most 15 deep. Its list is the forest in pre-order, and its
      counts are the forest's own if and only if no count was written to storage
      already replaced, that is, if no container crosses a replacement. For input
      whose values would lie outside it, the status says so. */
  method NewDecoder(input: bytes) returns (status: Status, d: Decoder?)
    ensures status == StatusOf(Parse(input, 1))
    ensures status == MalformedInput ==> d == null
    ensures status == Ok ==> d != null && fresh(d) && d.tlvIdx == -1 && d.depth == 0 && d.container == Null
    ensures status == Ok ==>
              var ns := Parse(input, 1).nodes;
              && d.tlvs == Stored(ns, 0) && Uncounted(d.tlvs) == Uncounted(Flatten(ns))
              && (d.stale <==> Crosses(ns, 0))
              && (d.tlvs == Flatten(ns) <==> !Crosses(ns, 0))
  {
    hide Parse, Flatten, Uncounted, Stored, Crosses;
    var decoder := new Decoder(input);
    status := decoder.ParseCursor(input);
    if status != Ok {
      return status, null;
    }
    ghost var ns := Parse(input, 1).nodes;
    AppendNothing(Stored(ns, 0), []);
    StoredUncounted(ns, 0);
    StoredIsFlatten(ns, 0);
    return status, decoder;
  }

  lemma NewEntryTag(tag: byte, body: bytes)
    ensures NewEntry(tag, body).tag == tag && NewEntry(tag, body).count == 0
    ensures Constructed(tag) ==> NewEntry(tag, body).value == body
  {
  }

  lemma StoredPrim(c: Cut, depth: nat, at: nat)
    requires FirstStatus(c, depth) == Ok && !Constructed(c.tag)
    ensures var n := FirstNode(c, depth); StoredNode(n, at) == [NewEntry(c.tag, c.body)] && !CrossesNode(n, at)
  {
    NewEntryTag(c.tag, c.body);
  }

  lemma StoredCons(c: Cut, depth: nat, at: nat)
    requires FirstStatus(c, depth) == Ok && Constructed(c.tag)
    ensures var n, cs := FirstNode(c, depth), ParseAt(c.body, depth).nodes;
            var k := Reached(cs, at + 1, Growths(at));
            && StoredNode(n, at) == [NewEntry(c.tag, c.body).(count := k)] + Stored(cs, at + 1)
            && (CrossesNode(n, at) <==> Strays(cs, at + 1, Growths(at)) || Crosses(cs, at + 1))
  {
    PrintOfParse(c.body, depth + 1);
    hide Parse, Constructed, NewEntry, Stored, Print, Reached, Growths, Crosses, Strays;
  }

  function FirstStatus(c: Cut, depth: nat): Status {
    match c
    case CutMalformed => MalformedInput
    case CutOutOfBounds => LeavesInput
    case Cut(tag, _, body, _, _) => if Constructed(tag) then StatusOf(ParseAt(body, depth)) else Ok
  }

  function FirstNode(c: Cut, depth: nat): Node
    requires FirstStatus(c, depth) == Ok
  {
    if Constructed(c.tag) then Cons(c.tag, c.form, ParseAt(c.body, depth).nodes, c.newlines)
    else Prim(c.tag, c.form, c.body, c.newlines)
  }

  lemma ParseStep(b: bytes, depth: nat)
    requires b != [] && depth <= MAX_DEPTH
    ensures var c := CutFirst(b);
            if FirstStatus(c, depth) == Ok then Parse(b, depth) == Parse(c.rest, depth).Prepend(FirstNode(c, depth))
            else StatusOf(Parse(b, depth)) == FirstStatus(c, depth)
  {
    hide CutFirst, Constructed;
  }

  // ---------------------------------------------------------------- about the list

  lemma NothingDone(ts: seq<Tlv>, ref: Ref)
    ensures var at := |ts|;
            && ts == Tally(ts, ref, Met(ref, [], at)) + Stored([], at)
            && !Lost(ref, [], at) && !Crosses([], at)
  {
    StoredNothing(|ts|, 0);
    AppendNothing(ts, []);
  }

  lemma PrependOne(done: seq<Node>, n: Node, p: Parsed)
    ensures PrependAll(done, p.Prepend(n)) == PrependAll(done + [n], p)
  {
    if p.Forest? {
      assert done + ([n] + p.nodes) == done + [n] + p.nodes;
    }
  }

  lemma TallyTwice(ts: seq<Tlv>, f: seq<Tlv>, ref: Ref, j: nat, k: nat)
    requires ref.Ref? ==> ref.index < |ts|
    ensures Tally(Tally(ts, ref, j) + f, ref, k) == Tally(ts, ref, j + k) + f
  {
    if ref.Ref? {
      var i, x := ref.index, ts[ref.index];
      assert (ts[i := x.(count := x.count + j)] + f)[i := x.(count := x.count + j + k)]
          == ts[i := x.(count := x.count + j + k)] + f;
    }
  }

  lemma MetMore(ref: Ref, done: seq<Node>, n: Node, at: nat)
    ensures Met(ref, done + [n], at) == Met(ref, done, at) + MetOne(ref, at + |Flatten(done)|)
    ensures Lost(ref, done + [n], at) <==> Lost(ref, done, at) || LostOne(ref, at + |Flatten(done)|)
  {
    hide Reached, Strays, Growths, Flatten;
    if ref.Ref? {
      StoredAppend(done, n, at, ref.epoch);
      StraysAppend(done, n, at, ref.epoch);
    }
  }

  /** Counting one more element of the same container. */
  lemma OneMore(ts: seq<Tlv>, ref: Ref, done: seq<Node>, n: Node)
    requires ref.Ref? ==> ref.index < |ts|
    ensures var at, last := |ts|, |ts| + |Flatten(done)|;
            && Tally(Tally(ts, ref, Met(ref, done, at)) + Stored(done, at), ref, MetOne(ref, last)) + StoredNode(n, last)
            == Tally(ts, ref, Met(ref, done + [n], at)) + Stored(done + [n], at)
            && (Lost(ref, done + [n], at) <==> Lost(ref, done, at) || LostOne(ref, last))
            && (Crosses(done + [n], at) <==> Crosses(done, at) || CrossesNode(n, last))
  {
    hide *;
    var at, last := |ts|, |ts| + |Flatten(done)|;
    MetMore(ref, done, n, at);
    StoredAppend(done, n, at, 0);
    TallyTwice(ts, Stored(done, at), ref, Met(ref, done, at), MetOne(ref, last));
    Assoc(Tally(ts, ref, Met(ref, done + [n], at)), Stored(done, at), StoredNode(n, last));
  }

  /** A new entry, counted by its container. */
  lemma PushAndCount(ts: seq<Tlv>, ref: Ref, t: Tlv, k: nat)
    requires ref.Ref? ==> ref.index < |ts|
    ensures Tally(ts + [t], ref, k) == Tally(ts, ref, k) + [t]
  {
    assert Tally(ts, ref, 0) == ts;
    TallyTwice(ts, [t], ref, 0, k);
  }

  lemma CountLast(q: seq<Tlv>, e: nat, t: Tlv, k: nat)
    requires t.count == 0
    ensures Tally(q + [t], Ref(e, |q|), k) == q + [t.(count := k)]
  {
  }

  /** The elements of a container are counted in the entry before them. */
  lemma Nested(q: seq<Tlv>, t: Tlv, cs: seq<Node>, n: Node)
    requires t.count == 0
    requires var at := |q|;
             var k := Reached(cs, at + 1, Growths(at));
             StoredNode(n, at) == [t.(count := k)] + Stored(cs, at + 1)
    ensures var at := |q|;
            var ref := Ref(Growths(at), at);
            && Tally(q + [t], ref, Met(ref, cs, at + 1)) + Stored(cs, at + 1) == q + StoredNode(n, at)
            && (Lost(ref, cs, at + 1) <==> Strays(cs, at + 1, Growths(at)))
  {
    hide Tally, Stored, StoredNode, Reached, Growths, Strays;
    var at := |q|;
    var k := Reached(cs, at + 1, Growths(at));
    CountLast(q, Growths(at), t, k);
    Assoc(q, [t.(count := k)], Stored(cs, at + 1));
  }
}
