/** The encoder of source/der.c as the object it is: a storage buffer, a stack of
    open containers each with a buffer of its own, and a pointer to the buffer
    being written. */
module DerEncoder {
  import opened Bytes
  import opened DerSyntax
  import opened DerList
  import opened DerDecoder
  import opened DerDocument

  datatype WriteStatus = Success | InvalidBufferSize | MismatchedDerType | InvalidState

  const WRITABLE_TAGS: set<byte> := {
    INTEGER, BOOLEAN, BIT_STRING, BMP_STRING, IA5_STRING, PRINTABLE_STRING, UTF8_STRING,
    OBJECT_IDENTIFIER, OCTET_STRING, SEQUENCE, SET, NULL
  }

  /** s with some proper part of t behind it. */
  ghost predicate CutShort(s: bytes, t: bytes, r: bytes) {
    s <= r && r <= s + t && r != s + t
  }

  lemma CutInFront(s: bytes, t: bytes, u: bytes, r: bytes)
    requires CutShort(s, t, r)
    ensures CutShort(s, t + u, r)
  {
    Assoc(s, t, u);
  }

  lemma CutBehind(s: bytes, t: bytes, u: bytes, r: bytes)
    requires CutShort(s + t, u, r)
    ensures CutShort(s, t + u, r)
  {
    Assoc(s, t, u);
  }

  lemma CutAtOnce(s: bytes, t: bytes)
    requires t != []
    ensures CutShort(s, t, s)
  {
  }

  /** Two writes in a row, the second only if the first succeeds. */
  method WriteTwo(buf: ByteBuf, x: bytes, y: bytes) returns (ok: bool)
    requires buf.Valid() && x != []
    modifies buf
    ensures buf.Valid()
    ensures ok <==> |old(buf.contents)| + |x + y| <= buf.capacity
    ensures if ok then buf.contents == old(buf.contents) + (x + y)
            else CutShort(old(buf.contents), x + y, buf.contents)
  {
    ghost var s := buf.contents;
    hide CutShort;
    Assoc(s, x, y);
    ok := buf.Write(x);
    if !ok {
      CutAtOnce(s, x + y);
      return;
    }
    ok := buf.Write(y);
    if !ok {
      CutAtOnce(s + x, y);
      CutBehind(s, x, y, buf.contents);
    }
  }

  /** The length octets of s_der_write_tlv. */
  method WriteLength(buf: ByteBuf, len: nat) returns (ok: bool)
    requires buf.Valid() && len < UINT32_RANGE
    modifies buf
    ensures buf.Valid()
    ensures var o := LengthOctets(FormFor(len), len);
            && (ok <==> |old(buf.contents)| + |o| <= buf.capacity)
            && (if ok then buf.contents == old(buf.contents) + o else CutShort(old(buf.contents), o, buf.contents))
    ensures var o := if len < 0x80 then [len]
                     else if len < 0x100 then [0x81, len]
                     else if len < 0x1_0000 then [0x82, len / 0x100, len % 256]
                     else [0x84, len / 0x100_0000, len / 0x1_0000 % 256, len / 0x100 % 256, len % 256];
            ok ==> buf.contents == old(buf.contents) + o
  {
    LengthOctetsAre(FormFor(len), len);
    hide CutShort, BigEndian;
    if len > 0xffff {
      ok := WriteTwo(buf, [0x84], BigEndian(len, 4));
    } else if len > 0xff {
      ok := WriteTwo(buf, [0x82], BigEndian(len, 2));
    } else if len > 0x7f {
      ok := WriteTwo(buf, [0x81], [len]);
      assert [0x81] + [len] == [0x81, len];
    } else {
      CutAtOnce(buf.contents, [len]);
      ok := buf.Write([len]);
    }
  }

  /** The contents octets of s_der_write_tlv, for the types it knows. */
  method WriteContent(buf: ByteBuf, tag: byte, value: bytes) returns (ok: bool)
    requires buf.Valid() && (tag == INTEGER ==> value != []) && (tag == BOOLEAN ==> |value| == 1)
    modifies buf
    ensures buf.Valid()
    ensures var c := Content(tag, value);
            && (ok <==> |old(buf.contents)| + |c| <= buf.capacity)
            && (if ok then buf.contents == old(buf.contents) + c else CutShort(old(buf.contents), c, buf.contents))
  {
    hide CutShort;
    if tag == INTEGER && value[0] >= 0x80 {
      ok := WriteTwo(buf, [0], value);
    } else if tag == BOOLEAN {
      CutAtOnce(buf.contents, Content(tag, value));
      ok := buf.Write([if value[0] != 0 then 0xff else 0x00]);
    } else if tag == BIT_STRING {
      ok := WriteTwo(buf, [0], value);
    } else if tag == NULL {
      AppendNothing(buf.contents, []);
      ok := true;
    } else {
      AppendNothing(value, []);
      if value != [] {
        CutAtOnce(buf.contents, value);
      }
      ok := buf.Write(value);
    }
  }

  /** s_der_write_tlv: all of the encoding, or an error with a part of it left
      in the buffer. */
  method WriteTlv(buf: ByteBuf, tag: byte, value: bytes) returns (status: WriteStatus)
    requires buf.Valid() && |value| < UINT32_RANGE
    requires (tag == INTEGER ==> value != []) && (tag == BOOLEAN ==> |value| == 1)
    modifies buf
    ensures buf.Valid()
    ensures tag in WRITABLE_TAGS ==>
              var e := Encoding(tag, value);
              && (status == Success <==> |old(buf.contents)| + |e| <= buf.capacity)
              && (if status == Success then buf.contents == old(buf.contents) + e
                  else CutShort(old(buf.contents), e, buf.contents))
    ensures tag !in WRITABLE_TAGS ==> status != Success
  {
    hide CutShort, LengthOctets, FormFor, Content, EncodedLen;
    ghost var s, n := buf.contents, EncodedLen(tag, value);
    ghost var l, c := LengthOctets(FormFor(n), n), Content(tag, value);
    EncodedLenFits(tag, value);
    Assoc([tag], l, c);
    Assoc(s, [tag], l + c);
    Assoc(s + [tag], l, c);
    var ok := buf.Write([tag]);
    if !ok {
      CutAtOnce(s, [tag] + (l + c));
      return InvalidBufferSize;
    }
    ok := WriteLength(buf, EncodedLen(tag, value));
    if !ok {
      CutInFront(s + [tag], l, c, buf.contents);
      CutBehind(s, [tag], l + c, buf.contents);
      return InvalidBufferSize;
    }
    if tag !in WRITABLE_TAGS {
      return MismatchedDerType;
    }
    ok := WriteContent(buf, tag, value);
    if !ok {
      CutBehind(s + [tag], l, c, buf.contents);
      CutBehind(s, [tag], l + c, buf.contents);
      return InvalidBufferSize;
    }
    return Success;
  }

  lemma EncodedLenFits(tag: byte, value: bytes)
    ensures EncodedLen(tag, value) < UINT32_RANGE
  {
  }

  // ---------------------------------------------------------------- the encoder

  /** A container that has been begun and not ended. */
  datatype Open = Open(tag: byte, buf: ByteBuf)

  class Encoder {
    const storage: ByteBuf
    var buffer: ByteBuf
    var stack: seq<Open>

    /** The buffer written to is the innermost open container's, or the storage;
        all buffers are different objects of the same capacity. */
    ghost predicate Valid()
      reads this, storage, set o | o in stack :: o.buf
    {
      && storage.Valid()
      && buffer == (if stack == [] then storage else stack[|stack| - 1].buf)
      && (forall i :: 0 <= i < |stack| ==> stack[i].buf.Valid() && stack[i].buf.capacity == storage.capacity)
      && (forall i :: 0 <= i < |stack| ==> stack[i].tag == SEQUENCE || stack[i].tag == SET)
      && (forall i :: 0 <= i < |stack| ==> stack[i].buf != storage)
      && (forall i, j :: 0 <= i < j < |stack| ==> stack[i].buf != stack[j].buf)
    }

    ghost function Frames(): (f: seq<Frame>)
      reads this, set o | o in stack :: o.buf
      ensures |f| == |stack|
    {
      seq(|stack|, i requires 0 <= i < |stack| reads this, set o | o in stack :: o.buf =>
        Frame(stack[i].tag, stack[i].buf.contents))
    }

    ghost function View(): Machine
      reads this, storage, set o | o in stack :: o.buf
    {
      Machine(storage.capacity, storage.contents, Frames())
    }

    constructor (capacity: nat)
      ensures Valid() && View() == Machine(capacity, [], [])
      ensures fresh(storage) && stack == []
    {
      storage := new ByteBuf(capacity);
      buffer := storage;
      stack := [];
    }

    /** Writes one element to the current buffer. */
    method WriteElement(tag: byte, value: bytes) returns (status: WriteStatus)
      requires Valid() && |value| < UINT32_RANGE && tag in WRITABLE_TAGS
      requires (tag == INTEGER ==> value != []) && (tag == BOOLEAN ==> |value| == 1)
      modifies buffer
      ensures Valid()
      ensures status == Success <==> Emit(old(View()), tag, value).Some?
      ensures status == Success ==> View() == Emit(old(View()), tag, value).value
    {
      hide CutShort, Encoding, EncodedLen, Content, LengthOctets;
      ghost var m := View();
      assert Top(m) == buffer.contents;
      status := WriteTlv(buffer, tag, value);
      if status == Success {
        ghost var m' := WithTop(m, buffer.contents);
        assert View().stack == m'.stack;
      }
    }

    /** aws_der_encoder_write_integer, _boolean, _null, _bit_string and
        _octet_string: the call succeeds exactly when the machine's step does. */
    method Write(item: Item) returns (status: WriteStatus)
      requires Valid() && Writable(item)
      modifies buffer
      ensures Valid()
      ensures status == Success <==> Step(old(View()), DerDocument.Write(item)).Some?
      ensures status == Success ==> View() == Step(old(View()), DerDocument.Write(item)).value
    {
      hide Emit;
      status := WriteElement(ItemTag(item), ItemValue(item));
    }

    /** s_der_encoder_begin_container */
    method Begin(tag: byte)
      requires Valid() && (tag == SEQUENCE || tag == SET)
      modifies this
      ensures Valid()
      ensures fresh(buffer) && stack == old(stack) + [Open(tag, buffer)]
      ensures Step(old(View()), DerDocument.Begin(tag)) == Some(View())
    {
      var buf := new ByteBuf(storage.capacity);
      stack := stack + [Open(tag, buf)];
      buffer := buf;
      assert View().stack == old(View()).stack + [Frame(tag, [])];
    }

    /** s_der_encoder_end_container: the innermost container is closed, and its
        contents become one element of the buffer around it. */
    method End() returns (status: WriteStatus)
      requires Valid()
      modifies this, storage, set o | o in stack :: o.buf
      ensures Valid()
      ensures stack == if old(stack) == [] then [] else old(stack)[..|old(stack)| - 1]
      ensures status == Success <==> Step(old(View()), DerDocument.End).Some?
      ensures status == Success ==> View() == Step(old(View()), DerDocument.End).value
    {
      hide Emit;
      if stack == [] {
        return InvalidState;
      }
      ghost var m := View();
      var tlv := stack[|stack| - 1];
      stack := stack[..|stack| - 1];
      buffer := if stack == [] then storage else stack[|stack| - 1].buf;
      assert View() == m.(stack := m.stack[..|m.stack| - 1]);
      status := WriteElement(tlv.tag, tlv.buf.contents[..|tlv.buf.contents| % UINT32_RANGE]);
    }

    /** aws_der_encoder_get_contents: something was written and nothing is open. */
    method GetContents() returns (r: Option<bytes>)
      requires Valid()
      ensures r == if stack == [] && storage.contents != [] then Some(storage.contents) else None
    {
      if |storage.contents| == 0 {
        return None;
      }
      if buffer != storage {
        return None;
      }
      return Some(storage.contents);
    }
  }

  /** Every balanced run of encoder calls that all succeed leaves contents from
      which the decoder recovers the items written, when they are nested at most
      15 deep, and which it refuses when they are nested deeper. */
  method EncodeDocument(capacity: nat, ops: seq<Op>) returns (r: Option<bytes>)
    requires capacity < UINT32_RANGE && AllLegal(ops)
    ensures var m := Run(Machine(capacity, [], []), ops);
            r == if m.Some? && m.value.stack == [] && m.value.storage != [] then Some(m.value.storage) else None
    ensures r.Some? ==>
              var xs := Build(EMPTY_DOC, ops).root;
              && r.value == Encode(xs)
              && (Parse(r.value, 1).Forest? <==> Depth(xs) <= 15)
              && (Depth(xs) <= 15 ==> Flatten(Parse(r.value, 1).nodes) == Reported(xs))
  {
    hide Step, Build, Encode, Parse, Flatten, Reported, Depth;
    var e := new Encoder(capacity);
    ghost var m0 := e.View();
    var i := 0;
    while i < |ops|
      invariant 0 <= i <= |ops|
      invariant e.Valid() && fresh(e) && fresh(e.storage) && forall o :: o in e.stack ==> fresh(o.buf)
      invariant Run(m0, ops) == Run(e.View(), ops[i..])
    {
      assert ops[i..][0] == ops[i] && ops[i..][1..] == ops[i + 1..];
      assert LegalOp(ops[i]);
      match ops[i] {
        case Write(item) =>
          var s := e.Write(item);
          if s != Success {
            return None;
          }
        case Begin(tag) =>
          e.Begin(tag);
        case End =>
          var s := e.End();
          if s != Success {
            return None;
          }
      }
      i := i + 1;
    }
    assert ops[i..] == [];
    r := e.GetContents();
    if e.stack == [] {
      RunReadsBack(capacity, ops, e.View());
    }
  }
}
