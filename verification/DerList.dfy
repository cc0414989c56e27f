/** The list that decoding builds: the entries in pre-order, and what their
    counts come to when the list's storage is replaced as it grows. */
module DerList {
  import opened Bytes
  import opened DerSyntax

  // ---------------------------------------------------------------- entries

  /** One decoded element. `count` is the number of elements of a container. */
  datatype Tlv = Tlv(tag: byte, length: nat, count: nat, value: bytes)

  /** The value without the padding byte of an unsigned INTEGER, without the
      unused-bits byte of a BIT STRING; NULL has no value at all. */
  function DecodedValue(tag: byte, body: bytes): bytes {
    if tag == INTEGER && body != [] && body[0] == 0 then body[1..]
    else if tag == BIT_STRING && body != [] then body[1..]
    else if tag == NULL then []
    else body
  }

  function DecodedLength(tag: byte, body: bytes): nat {
    if tag == NULL then |body| else |DecodedValue(tag, body)|
  }

  function NewEntry(tag: byte, body: bytes): Tlv {
    Tlv(tag, DecodedLength(tag, body), 0, DecodedValue(tag, body))
  }

  function Entry(n: Node): Tlv {
    NewEntry(n.tag, Body(n)).(count := if n.Cons? then |n.children| else 0)
  }

  /** The forest in pre-order. */
  function Flatten(ns: seq<Node>): seq<Tlv>
    decreases ns
  {
    if ns == [] then []
    else [Entry(ns[0])] + (if ns[0].Cons? then Flatten(ns[0].children) else []) + Flatten(ns[1..])
  }

  function FlattenNode(n: Node): seq<Tlv> {
    [Entry(n)] + if n.Cons? then Flatten(n.children) else []
  }

  lemma {:induction false} FlattenAppend(xs: seq<Node>, n: Node)
    ensures Flatten(xs + [n]) == Flatten(xs) + FlattenNode(n)
  {
    assert Flatten([]) == [];
    hide *;
    FlattenFirst(xs + [n]);
    if xs == [] {
      assert xs + [n] == [n] && [n][1..] == [];
      AppendNothing(FlattenNode(n), Flatten([]));
    } else {
      assert (xs + [n])[1..] == xs[1..] + [n];
      FlattenAppend(xs[1..], n);
      FlattenFirst(xs);
      Assoc(FlattenNode(xs[0]), Flatten(xs[1..]), FlattenNode(n));
    }
  }

  lemma FlattenFirst(ns: seq<Node>)
    requires ns != []
    ensures Flatten(ns) == FlattenNode(ns[0]) + Flatten(ns[1..])
  {
    hide Entry;
  }

  /** A container stands in front of its elements and those in front of what
      follows; its value is the octets of its elements, its count their number. */
  lemma FlattenOfCons(tag: byte, form: LengthForm, cs: seq<Node>, k: nat, rest: seq<Node>)
    requires Constructed(tag)
    ensures Flatten([Cons(tag, form, cs, k)] + rest)
         == [Tlv(tag, |Print(cs)|, |cs|, Print(cs))] + Flatten(cs) + Flatten(rest)
  {
    var n := Cons(tag, form, cs, k);
    FlattenFirst([n] + rest);
    assert ([n] + rest)[1..] == rest;
    ConstructedIsBit5(tag);
    assert FlattenNode(n) == [Tlv(tag, |Print(cs)|, |cs|, Print(cs))] + Flatten(cs);
  }

  /** An element that is none is reported alone, with its value stripped of the
      octet that pads an INTEGER or counts the unused bits of a BIT STRING. */
  lemma FlattenOfPrim(tag: byte, form: LengthForm, body: bytes, k: nat, rest: seq<Node>)
    ensures var v := if tag == 0x02 && body != [] && body[0] == 0 then body[1..]
                     else if tag == 0x03 && body != [] then body[1..]
                     else if tag == 0x05 then [] else body;
            Flatten([Prim(tag, form, body, k)] + rest)
            == [Tlv(tag, if tag == 0x05 then |body| else |v|, 0, v)] + Flatten(rest)
  {
    var n := Prim(tag, form, body, k);
    FlattenFirst([n] + rest);
    assert ([n] + rest)[1..] == rest;
    AppendNothing([Entry(n)], []);
  }

  function TotalCount(ts: seq<Tlv>): nat {
    if ts == [] then 0 else ts[0].count + TotalCount(ts[1..])
  }

  lemma {:induction false} TotalCountAppend(xs: seq<Tlv>, ys: seq<Tlv>)
    ensures TotalCount(xs + ys) == TotalCount(xs) + TotalCount(ys)
  {
    if xs == [] {
      assert xs + ys == ys;
    } else {
      assert (xs + ys)[1..] == xs[1..] + ys;
      TotalCountAppend(xs[1..], ys);
    }
  }

  /** Every entry is a top-level element or is counted by one container. */
  lemma {:induction false} CountsAddUp(ns: seq<Node>)
    ensures TotalCount(Flatten(ns)) + |ns| == |Flatten(ns)|
    decreases ns
  {
    if ns != [] {
      var n := ns[0];
      CountsAddUp(ns[1..]);
      var inner := if n.Cons? then Flatten(n.children) else [];
      if n.Cons? {
        CountsAddUp(n.children);
      }
      TotalCountAppend([Entry(n)] + inner, Flatten(ns[1..]));
      TotalCountAppend([Entry(n)], inner);
    }
  }

  /** The list without its counts. */
  function Uncounted(ts: seq<Tlv>): (r: seq<Tlv>)
    ensures |r| == |ts|
  {
    seq(|ts|, i requires 0 <= i < |ts| => ts[i].(count := 0))
  }

  // ---------------------------------------------------------------- storage

  const INITIAL_ENTRIES: nat := 16

  /** How often the storage has been replaced by twice as much once entry i is in
      it: the e with 16 * 2^(e-1) <= i < 16 * 2^e. */
  function Growths(i: nat): nat {
    if i < INITIAL_ENTRIES then 0 else 1 + Growths(i / 2)
  }

  function Capacity(e: nat): (c: nat)
    ensures c >= INITIAL_ENTRIES && c % 2 == 0
  {
    if e == 0 then INITIAL_ENTRIES else 2 * Capacity(e - 1)
  }

  /** Storage for 16 entries, doubled each time. */
  lemma {:induction false} CapacityIs(e: nat)
    ensures Capacity(e) == 16 * Pow2(e)
  {
    if e > 0 {
      CapacityIs(e - 1);
    }
  }

  lemma {:induction false} GrowthsIs(i: nat, e: nat)
    requires i < Capacity(e) && (e > 0 ==> Capacity(e) <= 2 * i)
    ensures Growths(i) == e
  {
    if i >= INITIAL_ENTRIES {
      GrowthsIs(i / 2, e - 1);
    }
  }

  /** The number of entries an element takes up. */
  function Size(n: Node): nat {
    |FlattenNode(n)|
  }

  /** Of sibling elements stored from position `at` on, how many are stored while
      the storage has been replaced e times. */
  function Reached(ns: seq<Node>, at: nat, e: nat): (k: nat)
    ensures k <= |ns|
    decreases |ns|
  {
    if ns == [] then 0
    else (if Growths(at) == e then 1 else 0) + Reached(ns[1..], at + Size(ns[0]), e)
  }

  /** The count that the entry of n at position `at` ends up with: it is counted
      up through a pointer into the storage it was put in. */
  function HeldCount(n: Node, at: nat): nat {
    if n.Cons? then Reached(n.children, at + 1, Growths(at)) else 0
  }

  /** The forest in pre-order from position `at` on, with those counts. */
  function Stored(ns: seq<Node>, at: nat): seq<Tlv>
    decreases ns
  {
    if ns == [] then []
    else
      [Entry(ns[0]).(count := HeldCount(ns[0], at))]
      + (if ns[0].Cons? then Stored(ns[0].children, at + 1) else [])
      + Stored(ns[1..], at + Size(ns[0]))
  }

  function StoredNode(n: Node, at: nat): seq<Tlv> {
    [Entry(n).(count := HeldCount(n, at))] + if n.Cons? then Stored(n.children, at + 1) else []
  }

  /** Where the k-th of sibling elements is stored. */
  function Position(ns: seq<Node>, at: nat, k: nat): nat
    requires k <= |ns|
  {
    at + |Flatten(ns[..k])|
  }

  /** Some of these siblings is stored while the storage has not been replaced
      exactly e times. */
  ghost predicate Strays(ns: seq<Node>, at: nat, e: nat) {
    exists k :: 0 <= k < |ns| && Growths(Position(ns, at, k)) != e
  }

  /** Some container has an element of its own that is stored after the storage
      has been replaced since the container was stored. */
  ghost predicate Crosses(ns: seq<Node>, at: nat)
    decreases ns
  {
    ns != [] &&
    (|| (ns[0].Cons? && (Strays(ns[0].children, at + 1, Growths(at)) || Crosses(ns[0].children, at + 1)))
     || Crosses(ns[1..], at + Size(ns[0])))
  }

  ghost predicate CrossesNode(n: Node, at: nat) {
    n.Cons? && (Strays(n.children, at + 1, Growths(at)) || Crosses(n.children, at + 1))
  }

  lemma FlattenOneMore(ns: seq<Node>, k: nat)
    requires k < |ns|
    ensures |Flatten(ns[..k + 1])| == Size(ns[0]) + |Flatten(ns[1..][..k])|
  {
    FlattenFirst(ns[..k + 1]);
    assert ns[..k + 1][1..] == ns[1..][..k];
  }

  /** All of them are reached if and only if each is stored before the storage is
      replaced again. */
  lemma {:induction false} ReachedAll(ns: seq<Node>, at: nat, e: nat)
    ensures Reached(ns, at, e) == |ns| <==> !Strays(ns, at, e)
    decreases |ns|
  {
    hide Growths, Flatten, FlattenNode;
    if ns != [] {
      var rest, at' := ns[1..], at + Size(ns[0]);
      ReachedAll(rest, at', e);
      NothingFlat();
      assert Position(ns, at, 0) == at;
      forall k | 0 <= k < |rest|
        ensures Position(rest, at', k) == Position(ns, at, k + 1)
      {
        FlattenOneMore(ns, k);
      }
      if Strays(rest, at', e) {
        var k :| 0 <= k < |rest| && Growths(Position(rest, at', k)) != e;
        assert Growths(Position(ns, at, k + 1)) != e;
      } else if Growths(at) == e {
        forall k | 0 <= k < |ns|
          ensures Growths(Position(ns, at, k)) == e
        {
          if k > 0 {
            assert Growths(Position(rest, at', k - 1)) == e;
          }
        }
      }
    }
  }

  lemma NothingFlat()
    ensures Flatten([]) == []
  {
  }

  lemma StoredFirst(ns: seq<Node>, at: nat)
    requires ns != []
    ensures Stored(ns, at) == StoredNode(ns[0], at) + Stored(ns[1..], at + Size(ns[0]))
    ensures Crosses(ns, at) <==> CrossesNode(ns[0], at) || Crosses(ns[1..], at + Size(ns[0]))
    ensures |Flatten(ns)| == Size(ns[0]) + |Flatten(ns[1..])|
  {
    FlattenFirst(ns);
    hide Entry, HeldCount, Strays;
  }

  lemma StoredNothing(at: nat, e: nat)
    ensures Stored([], at) == [] && Flatten([]) == [] && !Crosses([], at) && Reached([], at, e) == 0
  {
  }

  lemma ReachedFirst(ns: seq<Node>, at: nat, e: nat)
    requires ns != []
    ensures Reached(ns, at, e) == (if Growths(at) == e then 1 else 0) + Reached(ns[1..], at + Size(ns[0]), e)
  {
  }

  lemma {:induction false} StoredLength(ns: seq<Node>, at: nat)
    ensures |Stored(ns, at)| == |Flatten(ns)|
    decreases ns
  {
    if ns != [] {
      StoredLength(ns[1..], at + Size(ns[0]));
      if ns[0].Cons? {
        StoredLength(ns[0].children, at + 1);
      }
      hide Entry, HeldCount, Size;
    }
  }

  /** One element more behind the others. */
  lemma {:induction false} StoredAppend(ns: seq<Node>, n: Node, at: nat, e: nat)
    ensures var last := at + |Flatten(ns)|;
            && Stored(ns + [n], at) == Stored(ns, at) + StoredNode(n, last)
            && Reached(ns + [n], at, e) == Reached(ns, at, e) + (if Growths(last) == e then 1 else 0)
            && (Crosses(ns + [n], at) <==> Crosses(ns, at) || CrossesNode(n, last))
    decreases |ns|
  {
    hide *;
    StoredFirst(ns + [n], at);
    ReachedFirst(ns + [n], at, e);
    if ns == [] {
      assert ns + [n] == [n] && [n][1..] == [];
      StoredNothing(at, e);
      StoredNothing(at + Size(n), e);
      AppendNothing(StoredNode(n, at), []);
    } else {
      StoredFirst(ns, at);
      ReachedFirst(ns, at, e);
      assert (ns + [n])[1..] == ns[1..] + [n] && (ns + [n])[0] == ns[0];
      StoredAppend(ns[1..], n, at + Size(ns[0]), e);
      Assoc(StoredNode(ns[0], at), Stored(ns[1..], at + Size(ns[0])), StoredNode(n, at + |Flatten(ns)|));
    }
  }

  lemma StraysAppend(ns: seq<Node>, n: Node, at: nat, e: nat)
    ensures Strays(ns + [n], at, e) <==> Strays(ns, at, e) || Growths(at + |Flatten(ns)|) != e
  {
    hide *;
    StoredAppend(ns, n, at, e);
    ReachedAll(ns, at, e);
    ReachedAll(ns + [n], at, e);
  }

  /** The list is the forest's own, with the right counts, if and only if no
      container crosses a replacement of the storage. */
  lemma {:induction false} StoredIsFlatten(ns: seq<Node>, at: nat)
    ensures Stored(ns, at) == Flatten(ns) <==> !Crosses(ns, at)
    decreases ns
  {
    hide *;
    if ns == [] {
      StoredNothing(at, 0);
    } else {
      StoredFirst(ns, at);
      FlattenFirst(ns);
      StoredIsFlatten(ns[1..], at + Size(ns[0]));
      if ns[0].Cons? {
        StoredLength(ns[0].children, at + 1);
        StoredIsFlatten(ns[0].children, at + 1);
      }
      StoredNodeIsFlatten(ns[0], at);
      SamePieces(StoredNode(ns[0], at), FlattenNode(ns[0]), Stored(ns[1..], at + Size(ns[0])), Flatten(ns[1..]));
    }
  }

  lemma StoredNodeIsFlatten(n: Node, at: nat)
    requires n.Cons? ==> |Stored(n.children, at + 1)| == |Flatten(n.children)|
    requires n.Cons? ==> (Stored(n.children, at + 1) == Flatten(n.children) <==> !Crosses(n.children, at + 1))
    ensures StoredNode(n, at) == FlattenNode(n) <==> !CrossesNode(n, at)
    ensures |StoredNode(n, at)| == |FlattenNode(n)|
  {
    hide Stored, Flatten, Crosses, Reached, Strays;
    if n.Cons? {
      ReachedAll(n.children, at + 1, Growths(at));
      SamePieces([Entry(n).(count := HeldCount(n, at))], [Entry(n)], Stored(n.children, at + 1), Flatten(n.children));
    }
  }

  lemma SamePieces<T>(x: seq<T>, x': seq<T>, y: seq<T>, y': seq<T>)
    requires |x| == |x'|
    ensures x + y == x' + y' <==> x == x' && y == y'
  {
    Halves(x, y);
    Halves(x', y');
  }

  /** Apart from the counts the list is always the forest's own. */
  lemma {:induction false} StoredUncounted(ns: seq<Node>, at: nat)
    ensures Uncounted(Stored(ns, at)) == Uncounted(Flatten(ns))
    decreases ns
  {
    hide *;
    if ns == [] {
      StoredNothing(at, 0);
    } else {
      if ns[0].Cons? {
        StoredUncounted(ns[0].children, at + 1);
      }
      StoredNodeUncounted(ns[0], at);
      StoredUncounted(ns[1..], at + Size(ns[0]));
      StoredFirst(ns, at);
      FlattenFirst(ns);
      UncountedAppend(StoredNode(ns[0], at), Stored(ns[1..], at + Size(ns[0])));
      UncountedAppend(FlattenNode(ns[0]), Flatten(ns[1..]));
    }
  }

  lemma StoredNodeUncounted(n: Node, at: nat)
    requires n.Cons? ==> Uncounted(Stored(n.children, at + 1)) == Uncounted(Flatten(n.children))
    ensures Uncounted(StoredNode(n, at)) == Uncounted(FlattenNode(n))
  {
    hide Stored, Flatten, Uncounted, Entry, HeldCount;
    var e, h := Entry(n), HeldCount(n, at);
    UncountedOne(e, h);
    if n.Cons? {
      UncountedAppend([e.(count := h)], Stored(n.children, at + 1));
      UncountedAppend([e], Flatten(n.children));
    } else {
      AppendNothing([e], []);
      AppendNothing([e.(count := h)], []);
    }
  }

  lemma UncountedAppend(xs: seq<Tlv>, ys: seq<Tlv>)
    ensures Uncounted(xs + ys) == Uncounted(xs) + Uncounted(ys)
  {
  }

  lemma UncountedOne(t: Tlv, k: nat)
    ensures Uncounted([t]) == Uncounted([t.(count := k)])
  {
    assert Uncounted([t])[0] == Uncounted([t.(count := k)])[0];
  }

  /** Within the storage first allocated nothing crosses. */
  lemma {:induction false} SmallListsDoNotCross(ns: seq<Node>, at: nat)
    requires at + |Flatten(ns)| <= INITIAL_ENTRIES
    ensures !Crosses(ns, at) && Reached(ns, at, 0) == |ns|
    decreases ns
  {
    hide Strays;
    if ns != [] {
      FlattenFirst(ns);
      SmallListsDoNotCross(ns[1..], at + Size(ns[0]));
      if ns[0].Cons? {
        SmallListsDoNotCross(ns[0].children, at + 1);
        ReachedAll(ns[0].children, at + 1, 0);
      }
    }
  }

  // ---------------------------------------------------------------- a container that crosses

  const NULL_NODE: Node := Prim(NULL, Short, [], 0)

  function Nulls(k: nat): (ns: seq<Node>)
    ensures |ns| == k
  {
    if k == 0 then [] else [NULL_NODE] + Nulls(k - 1)
  }

  function NullOctets(k: nat): (b: bytes)
    ensures |b| == 2 * k
  {
    if k == 0 then [] else [NULL, 0] + NullOctets(k - 1)
  }

  /** The octets of a sequence of k NULLs. */
  function NullSequence(k: nat): bytes
    requires k < 64
  {
    [SEQUENCE, 2 * k] + NullOctets(k)
  }

  lemma {:induction false} NullsAreFlat(k: nat, at: nat)
    ensures WellFormed(Nulls(k)) && Nesting(Nulls(k)) == 0 && |Flatten(Nulls(k))| == k
    ensures !Crosses(Nulls(k), at)
    ensures Reached(Nulls(k), at, 0) == if at >= 16 then 0 else if at + k <= 16 then k else 16 - at
    decreases k
  {
    if k > 0 {
      assert Nulls(k)[1..] == Nulls(k - 1) && Size(NULL_NODE) == 1;
      NullsAreFlat(k - 1, at + 1);
      assert k > 1 ==> Nulls(k - 1)[0] == NULL_NODE;
      FlattenFirst(Nulls(k));
    }
  }

  lemma {:induction false} NullsPrint(k: nat)
    ensures Print(Nulls(k)) == NullOctets(k)
  {
    if k > 0 {
      NullsPrint(k - 1);
      assert Nulls(k)[1..] == Nulls(k - 1);
      NullPrints();
      hide Element;
    }
  }

  lemma NullPrints()
    ensures Element(NULL, Short, [], 0) == [NULL, 0]
  {
    assert LengthOctets(Short, 0) == [0];
  }

  lemma NullSequencePrints(k: nat)
    requires k < 64
    ensures var ns := [Cons(SEQUENCE, Short, Nulls(k), 0)];
            Print(ns) == NullSequence(k) && WellFormed(ns) && Nesting(ns) == 1
  {
    var ns := [Cons(SEQUENCE, Short, Nulls(k), 0)];
    NullsPrint(k);
    NullsAreFlat(k, 0);
    assert ns[1..] == [];
    assert WellFormed([]) && Nesting([]) == 0 && Print([]) == [];
    ShortElement(SEQUENCE, NullOctets(k), 0);
    AppendNothing([SEQUENCE, 2 * k] + NullOctets(k), Repeat(NEWLINE, 0));
    hide Nulls, NullOctets, Element;
    AppendNothing(NullSequence(k), []);
  }

  /** A sequence of k NULLs is well-formed input. From 16 on, its entry is counted
      up in storage that is gone, and says 15 whatever k is. */
  lemma NullSequencesCross(k: nat)
    requires k < 64
    ensures var ns := [Cons(SEQUENCE, Short, Nulls(k), 0)];
            && Parse(NullSequence(k), 1) == Forest(ns)
            && (Crosses(ns, 0) <==> k >= 16)
            && |Stored(ns, 0)| == k + 1 && Stored(ns, 0)[0].count == if k < 16 then k else 15
  {
    var n := Cons(SEQUENCE, Short, Nulls(k), 0);
    NullSequencePrints(k);
    ParseOfPrint([n], 1);
    NullsAreFlat(k, 1);
    ReachedAll(Nulls(k), 1, 0);
    assert [n][1..] == [];
    assert Growths(0) == 0;
    StoredFirst([n], 0);
    StoredNothing(Size(n), 0);
    StoredLength([n], 0);
    FlattenFirst([n]);
    hide Parse, Print, Nulls, Reached, Strays, Stored, Crosses, Flatten;
  }

  /** The smallest such input: sixteen elements, reported as fifteen. */
  lemma SixteenNullsAreMiscounted()
    ensures var b := [0x30, 0x20] + NullOctets(16);
            && Parse(b, 1).Forest? && |Parse(b, 1).nodes[0].children| == 16
            && Crosses(Parse(b, 1).nodes, 0) && Stored(Parse(b, 1).nodes, 0)[0].count == 15
  {
    NullSequencesCross(16);
    hide Parse, Stored, Crosses, NullOctets, Nulls;
  }

  /** A long list does no harm by itself: elements outside any container are not
      counted at all. */
  lemma {:induction false} TopLevelElementsDoNotCross(ns: seq<Node>, at: nat)
    requires forall n :: n in ns ==> n.Prim?
    ensures !Crosses(ns, at)
    decreases |ns|
  {
    if ns != [] {
      TopLevelElementsDoNotCross(ns[1..], at + Size(ns[0]));
    }
  }
}
