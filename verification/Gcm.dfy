/** The buffering in front of the provider's GCM in source/windows/bcrypt_aes.c:
    chained calls get whole blocks only, and enough is held back that the one
    unchained call at the end always has something to authenticate. */
module Gcm {
  import opened Bytes
  import opened BlockCiphers
  import opened CipherCommon
  import CipherLifecycle

  // ---------------------------------------------------------------- what is held back

  /** A function of the total alone. */
  function Retained(total: nat): (r: nat)
    ensures r <= total && r < 32 && (total - r) % 16 == 0
    ensures total > 0 ==> r > 0
    ensures total <= 16 ==> r == total
    ensures total > 16 ==> r >= 16
  {
    if total <= 16 then total else 16 + total % 16
  }

  function Passed(total: nat): (p: nat)
    ensures p <= total && p % 16 == 0
  {
    total - Retained(total)
  }

  lemma RetainedTwice(total: nat, more: nat)
    requires more > 0
    ensures Retained(Retained(total) + more) == Retained(total + more)
    ensures Passed(total + more) == Passed(total) + (Retained(total) + more - Retained(total + more))
  {
    if total > 16 {
      SameRemainder(16 + total % 16 + more, total / 16 - 1);
      assert 16 + total % 16 + more + 16 * (total / 16 - 1) == total + more;
    }
  }

  // ---------------------------------------------------------------- the calls that reach the provider

  datatype Direction = Encrypting | Decrypting

  datatype Call = Call(direction: Direction, data: bytes, chained: bool)

  function Data(calls: seq<Call>): bytes {
    if calls == [] then [] else calls[0].data + Data(calls[1..])
  }

  lemma {:induction false} DataAppend(calls: seq<Call>, c: Call)
    ensures Data(calls + [c]) == Data(calls) + c.data
  {
    if calls == [] {
      assert calls + [c] == [c] && [c][1..] == [];
    } else {
      assert (calls + [c])[1..] == calls[1..] + [c];
      DataAppend(calls[1..], c);
    }
  }

  /** Chained calls take a non-zero number of whole blocks. */
  ghost predicate AllChained(calls: seq<Call>, dir: Direction) {
    forall i :: 0 <= i < |calls| ==>
      && calls[i].direction == dir && calls[i].chained
      && calls[i].data != [] && |calls[i].data| % 16 == 0
  }

  /** Between calls: what has been passed on and what is held back. */
  ghost predicate Between(calls: seq<Call>, dir: Direction, msg: bytes, overflow: bytes) {
    && overflow == msg[Passed(|msg|)..]
    && Data(calls) == msg[..Passed(|msg|)]
    && AllChained(calls, dir)
  }

  lemma AtTheStart(dir: Direction)
    ensures Between([], dir, [], [])
  {
  }

  /** A finished run: chained calls, then exactly one unchained call of 1 to 31
      bytes; no call at all when there was no input. */
  ghost predicate Finished(calls: seq<Call>, dir: Direction, msg: bytes) {
    && Data(calls) == msg
    && (msg == [] <==> calls == [])
    && (calls != [] ==>
          var last := calls[|calls| - 1];
          && AllChained(calls[..|calls| - 1], dir)
          && last.direction == dir && !last.chained && |last.data| == Retained(|msg|))
  }

  class GcmCipher {
    var overflow: bytes
    var chaining: bool
    var good: bool

    /** What the provider has been asked to do. */
    var calls: seq<Call>

    /** The input of the run so far. */
    ghost var fed: bytes

    ghost predicate InStep(dir: Direction)
      reads this
    {
      chaining && Between(calls, dir, fed, overflow)
    }

    constructor ()
      ensures good && InStep(Encrypting) && InStep(Decrypting) && fed == []
    {
      hide Between;
      overflow, chaining, good, calls := [], true, true, [];
      fed := [];
      AtTheStart(Encrypting);
      AtTheStart(Decrypting);
    }

    /** s_aes_default_encrypt and s_default_aes_decrypt: no call for no data. */
    method CallProvider(dir: Direction, data: bytes)
      modifies this`calls
      ensures calls == old(calls) + if data == [] then [] else [Call(dir, data, chaining)]
    {
      if |data| == 0 {
        return;
      }
      calls := calls + [Call(dir, data, chaining)];
    }

    /** aws_symmetric_cipher_encrypt and _decrypt over s_aes_gcm_encrypt and
        s_aes_gcm_decrypt, which differ only in the call they make. */
    method Update(dir: Direction, input: bytes) returns (status: Status)
      modifies this`overflow, this`calls, this`fed
      ensures status == if !WithinLimits(|input|, BLOCK_SIZE) then BufferTooLarge
                        else if !good then InvalidState else Success
      ensures old(InStep(dir)) ==> InStep(dir)
      ensures fed == old(fed) + if status == Success then input else []
      ensures status != Success || input == [] ==> unchanged(this)
      ensures status == Success && input != [] ==>
                var all := old(overflow) + input;
                var n := Passed(|all|);
                && overflow == all[n..]
                && calls == old(calls) + if n == 0 then [] else [Call(dir, all[..n], chaining)]
    {
      hide Data, AllChained, Between;
      AppendNothing(fed, []);
      if !WithinLimits(|input|, BLOCK_SIZE) {
        return BufferTooLarge;
      }
      if !good {
        return InvalidState;
      }
      if |input| == 0 {
        AppendNothing(fed, input);
        return Success;
      }
      ghost var f, inStep := fed, InStep(dir);
      var working: bytes;
      if |overflow| > 0 {
        working, overflow := overflow + input, [];
      } else {
        working := input;
      }
      assert working == old(overflow) + input;
      var slice: bytes := [];
      if |working| > BLOCK_SIZE {
        var offset := |working| % BLOCK_SIZE;
        var seekTo := |working| - (BLOCK_SIZE + offset);
        slice, overflow := working[..seekTo], working[seekTo..];
      } else {
        overflow := working;
      }
      if inStep {
        GoesOn(calls, dir, f, old(overflow), input, slice, overflow);
      }
      CallProvider(dir, slice);
      fed := fed + input;
      return Success;
    }

    /** aws_symmetric_cipher_finalize_encryption and _decryption */
    method Finalize(dir: Direction) returns (status: Status)
      modifies this`overflow, this`chaining, this`good, this`calls
      ensures !good
      ensures status == if old(good) then Success else InvalidState
      ensures old(good && InStep(dir)) ==> Finished(calls, dir, fed)
      ensures status == InvalidState ==> unchanged(this)
      ensures status == Success ==> overflow == [] && !chaining
      ensures status == Success ==>
                calls == old(calls) + if old(overflow) == [] then [] else [Call(dir, old(overflow), false)]
    {
      hide Data, AllChained, Between, Finished;
      if !good {
        return InvalidState;
      }
      chaining := false;
      if Between(calls, dir, fed, overflow) {
        LastCall(calls, dir, fed, overflow);
      }
      CallProvider(dir, overflow);
      overflow := [];
      good := false;
      return Success;
    }

    /** s_reset_gcm_cipher and aws_symmetric_cipher_reset: a new run with a new
        provider context, as from a new cipher. */
    method Reset()
      modifies this
      ensures good && InStep(Encrypting) && InStep(Decrypting) && fed == []
      ensures overflow == [] && chaining && calls == []
    {
      hide Between;
      overflow, chaining, good, calls := [], true, true, [];
      fed := [];
      AtTheStart(Encrypting);
      AtTheStart(Decrypting);
    }
  }

  lemma Advance(fed: bytes, input: bytes, slice: bytes, rest: bytes)
    requires input != [] && slice + rest == fed[Passed(|fed|)..] + input
    requires |rest| == if |slice + rest| > 16 then 16 + |slice + rest| % 16 else |slice + rest|
    ensures |slice| % 16 == 0
    ensures (fed + input)[..Passed(|fed + input|)] == fed[..Passed(|fed|)] + slice
    ensures (fed + input)[Passed(|fed + input|)..] == rest
  {
    RetainedTwice(|fed|, |input|);
    assert |slice + rest| == Retained(|fed|) + |input| && |rest| == Retained(|slice + rest|);
    hide Retained, Passed;
    var p := Passed(|fed|);
    Rejoin(fed, p);
    Assoc(fed[..p], fed[p..], input);
    Assoc(fed[..p], slice, rest);
    Halves(fed[..p] + slice, rest);
  }

  lemma OneMoreCall(calls: seq<Call>, dir: Direction, slice: bytes)
    requires AllChained(calls, dir) && |slice| % 16 == 0
    ensures var more := calls + if slice == [] then [] else [Call(dir, slice, true)];
            AllChained(more, dir) && Data(more) == Data(calls) + slice
  {
    if slice == [] {
      AppendNothing(calls, []);
      AppendNothing(Data(calls), slice);
    } else {
      DataAppend(calls, Call(dir, slice, true));
    }
  }

  lemma GoesOn(calls: seq<Call>, dir: Direction, fed: bytes, overflow: bytes, input: bytes, slice: bytes, rest: bytes)
    requires Between(calls, dir, fed, overflow) && input != [] && slice + rest == overflow + input
    requires |rest| == if |slice + rest| > 16 then 16 + |slice + rest| % 16 else |slice + rest|
    ensures Between(calls + if slice == [] then [] else [Call(dir, slice, true)], dir, fed + input, rest)
  {
    hide Passed, Retained, Data, AllChained;
    Advance(fed, input, slice, rest);
    OneMoreCall(calls, dir, slice);
  }

  lemma NoDataNoCalls(calls: seq<Call>, dir: Direction)
    requires AllChained(calls, dir)
    ensures Data(calls) == [] <==> calls == []
  {
    assert calls != [] ==> |Data(calls)| >= |calls[0].data|;
  }

  lemma LastCall(calls: seq<Call>, dir: Direction, fed: bytes, rest: bytes)
    requires Between(calls, dir, fed, rest)
    ensures Finished(calls + if rest == [] then [] else [Call(dir, rest, false)], dir, fed)
  {
    Rejoin(fed, Passed(|fed|));
    if rest == [] {
      assert fed == [];
      NoDataNoCalls(calls, dir);
      AppendNothing(calls, []);
    } else {
      var c := Call(dir, rest, false);
      DataAppend(calls, c);
      assert (calls + [c])[..|calls|] == calls;
    }
  }

  // ---------------------------------------------------------------- what the calls compute

  /** A provider that works block by block: chained calls carry the state on,
      the unchained call treats the final piece and yields the tag. */
  datatype Provider<!S> = Provider(block: (S, Block) -> (S, Block), last: (S, bytes) -> (bytes, bytes))

  function Blocks<S>(p: Provider<S>, s: S, data: bytes): (r: (S, bytes))
    requires |data| % 16 == 0
    decreases |data|
  {
    if data == [] then (s, []) else
      var (s1, b) := p.block(s, data[..16]);
      var (s2, o) := Blocks(p, s1, data[16..]);
      (s2, b + o)
  }

  /** Output and tag of one unchained call. */
  function Final<S>(p: Provider<S>, s: S, data: bytes): (bytes, bytes) {
    var n := 16 * (|data| / 16);
    var (s1, o) := Blocks(p, s, data[..n]);
    var (o', tag) := p.last(s1, data[n..]);
    (o + o', tag)
  }

  /** Output and tag of a sequence of calls. */
  function Replay<S>(p: Provider<S>, s: S, calls: seq<Call>): (bytes, bytes)
    decreases |calls|
  {
    if calls == [] then ([], [])
    else if calls[0].chained && |calls[0].data| % 16 == 0 then
      var (s1, o) := Blocks(p, s, calls[0].data);
      var (o', tag) := Replay(p, s1, calls[1..]);
      (o + o', tag)
    else
      Final(p, s, calls[0].data)
  }

  lemma {:induction false} BlocksAppend<S>(p: Provider<S>, s: S, x: bytes, y: bytes)
    requires |x| % 16 == 0 && |y| % 16 == 0
    ensures var (s1, o) := Blocks(p, s, x);
            var (s2, o') := Blocks(p, s1, y);
            Blocks(p, s, x + y) == (s2, o + o')
    decreases |x|
  {
    if x == [] {
      assert x + y == y;
      AppendNothing(Blocks(p, s, y).1, []);
    } else {
      BlocksFirst(p, s, x);
      BlocksFirst(p, s, x + y);
      hide Blocks;
      assert (x + y)[..16] == x[..16];
      assert (x + y)[16..] == x[16..] + y;
      var (s1, b) := p.block(s, x[..16]);
      BlocksAppend(p, s1, x[16..], y);
      var (s2, o) := Blocks(p, s1, x[16..]);
      Assoc(b, o, Blocks(p, s2, y).1);
    }
  }

  lemma BlocksFirst<S>(p: Provider<S>, s: S, x: bytes)
    requires |x| % 16 == 0 && x != []
    ensures var (s1, b) := p.block(s, x[..16]);
            var (s2, o) := Blocks(p, s1, x[16..]);
            Blocks(p, s, x) == (s2, b + o)
  {
  }

  lemma FinalAppend<S>(p: Provider<S>, s: S, x: bytes, y: bytes)
    requires |x| % 16 == 0
    ensures var (s1, o) := Blocks(p, s, x);
            var (o', tag) := Final(p, s1, y);
            Final(p, s, x + y) == (o + o', tag)
  {
    var n := 16 * (|y| / 16);
    assert 16 * (|x + y| / 16) == |x| + n;
    assert (x + y)[..|x| + n] == x + y[..n];
    assert (x + y)[|x| + n..] == y[n..];
    BlocksAppend(p, s, x, y[..n]);
    hide Blocks;
    var (s1, o) := Blocks(p, s, x);
    var (s2, o') := Blocks(p, s1, y[..n]);
    Assoc(o, o', p.last(s2, y[n..]).0);
  }

  ghost predicate ChainedThenFinal(calls: seq<Call>) {
    && calls != [] && !calls[|calls| - 1].chained
    && forall i :: 0 <= i < |calls| - 1 ==> calls[i].chained && |calls[i].data| % 16 == 0
  }

  lemma {:induction false} ReplayIsFinal<S>(p: Provider<S>, s: S, calls: seq<Call>)
    requires ChainedThenFinal(calls)
    ensures Replay(p, s, calls) == Final(p, s, Data(calls))
    decreases |calls|
  {
    hide Blocks, Final;
    if |calls| == 1 {
      assert Data(calls[1..]) == [];
      AppendNothing(calls[0].data, Data(calls[1..]));
    } else {
      var (s1, o) := Blocks(p, s, calls[0].data);
      ReplayIsFinal(p, s1, calls[1..]);
      FinalAppend(p, s, calls[0].data, Data(calls[1..]));
    }
  }

  /** However the message was split, the calls of a finished run produce the
      output and the tag that one call with the whole message would. */
  lemma FinishedRunIsOneShot<S>(p: Provider<S>, s: S, calls: seq<Call>, dir: Direction, msg: bytes)
    requires Finished(calls, dir, msg) && msg != []
    ensures Replay(p, s, calls) == Final(p, s, msg)
  {
    hide Replay, Final, Data;
    assert forall i :: 0 <= i < |calls| - 1 ==> calls[i] == calls[..|calls| - 1][i];
    ReplayIsFinal(p, s, calls);
  }

  /** A decrypting provider for an encrypting one: same states, same tags, and
      every piece turned back. */
  ghost predicate Inverts<S(!new)>(dec: Provider<S>, enc: Provider<S>) {
    && (forall s: S, b: Block :: dec.block(s, enc.block(s, b).1) == (enc.block(s, b).0, b))
    && (forall s: S, x: bytes ::
          |enc.last(s, x).0| == |x| && dec.last(s, enc.last(s, x).0) == (x, enc.last(s, x).1))
  }

  lemma {:induction false} BlocksInvert<S(!new)>(dec: Provider<S>, enc: Provider<S>, s: S, data: bytes)
    requires Inverts(dec, enc) && |data| % 16 == 0
    ensures var (s', o) := Blocks(enc, s, data); |o| == |data| && Blocks(dec, s, o) == (s', data)
    decreases |data|
  {
    if data != [] {
      BlocksFirst(enc, s, data);
      var (s1, b) := enc.block(s, data[..16]);
      var (s2, o) := Blocks(enc, s1, data[16..]);
      BlocksInvert(dec, enc, s1, data[16..]);
      Halves(b, o);
      BlocksFirst(dec, s, b + o);
      Rejoin(data, 16);
      hide Blocks;
    }
  }

  /** One call with the output of one call gives the message and the same tag. */
  lemma FinalInverts<S(!new)>(dec: Provider<S>, enc: Provider<S>, s: S, msg: bytes)
    requires Inverts(dec, enc)
    ensures var (o, tag) := Final(enc, s, msg); Final(dec, s, o) == (msg, tag)
  {
    var n := 16 * (|msg| / 16);
    BlocksInvert(dec, enc, s, msg[..n]);
    hide Blocks;
    var (s1, o) := Blocks(enc, s, msg[..n]);
    var (o', tag) := enc.last(s1, msg[n..]);
    assert |o + o'| == |msg|;
    Halves(o, o');
    Rejoin(msg, n);
  }

  lemma ReplayNothing<S>(p: Provider<S>, s: S)
    ensures Replay(p, s, []) == ([], [])
  {
  }

  /** Encrypting under any split and decrypting under any split gives the message
      back, and the same tag both times. */
  method GcmRoundTrip<S(!new)>(dec: Provider<S>, enc: Provider<S>, s: S, chunks: seq<bytes>, split: bytes -> seq<bytes>)
    returns (msg: bytes, sentTag: bytes, foundTag: bytes)
    requires Inverts(dec, enc)
    requires (forall x :: x in chunks ==> WithinLimits(|x|, BLOCK_SIZE)) && Splits(split)
    ensures msg == Concat(chunks) && foundTag == sentTag
  {
    hide Finished, Replay, Final, Inverts;
    var calls := GcmChunks(Encrypting, chunks);
    var (text, tag) := Replay(enc, s, calls);
    ReplayOf(enc, s, calls, Encrypting, Concat(chunks));
    calls := GcmChunks(Decrypting, split(text));
    ReplayOf(dec, s, calls, Decrypting, text);
    var (back, tag') := Replay(dec, s, calls);
    if |text| > 0 {
      FinalInverts(dec, enc, s, Concat(chunks));
    }
    FinalLength(dec, enc, s, Concat(chunks));
    return back, tag, tag';
  }

  lemma ReplayOf<S>(p: Provider<S>, s: S, calls: seq<Call>, dir: Direction, msg: bytes)
    requires Finished(calls, dir, msg)
    ensures Replay(p, s, calls) == if msg == [] then ([], []) else Final(p, s, msg)
  {
    if msg == [] {
      ReplayNothing(p, s);
    } else {
      FinishedRunIsOneShot(p, s, calls, dir, msg);
    }
    hide Replay, Final;
  }

  lemma FinalLength<S(!new)>(dec: Provider<S>, enc: Provider<S>, s: S, msg: bytes)
    requires Inverts(dec, enc)
    ensures |Final(enc, s, msg).0| == |msg|
  {
    BlocksInvert(dec, enc, s, msg[..16 * (|msg| / 16)]);
    hide Blocks;
  }

  /** Feeds the chunks to a cipher that is at the start of a run. */
  method GcmRun(k: GcmCipher, dir: Direction, chunks: seq<bytes>)
    requires k.good && k.InStep(dir) && k.fed == []
    requires forall x :: x in chunks ==> WithinLimits(|x|, BLOCK_SIZE)
    modifies k
    ensures Finished(k.calls, dir, Concat(chunks))
  {
    hide Finished, Between;
    var i := 0;
    while i < |chunks|
      invariant 0 <= i <= |chunks|
      invariant k.good && k.InStep(dir) && k.fed == Concat(chunks[..i])
    {
      ConcatSplit(chunks, i);
      var _ := k.Update(dir, chunks[i]);
      i := i + 1;
    }
    assert chunks[..i] == chunks;
    var _ := k.Finalize(dir);
  }

  /** Every split of a message leads to a finished run. */
  method GcmChunks(dir: Direction, chunks: seq<bytes>) returns (calls: seq<Call>)
    requires forall x :: x in chunks ==> WithinLimits(|x|, BLOCK_SIZE)
    ensures Finished(calls, dir, Concat(chunks))
  {
    hide Finished, Between;
    var k := new GcmCipher();
    GcmRun(k, dir, chunks);
    calls := k.calls;
  }

  /** So it does after any calls, in any mixture, and a reset. */
  method GcmAfterReset(requests: seq<CipherLifecycle.Request>, dir: Direction, chunks: seq<bytes>)
    returns (calls: seq<Call>)
    requires forall x :: x in chunks ==> WithinLimits(|x|, BLOCK_SIZE)
    ensures Finished(calls, dir, Concat(chunks))
  {
    hide Finished, Between;
    var k := new GcmCipher();
    for i := 0 to |requests| {
      match requests[i] {
        case Encrypt(input) => var _ := k.Update(Encrypting, input);
        case Decrypt(input) => var _ := k.Update(Decrypting, input);
        case FinalizeEncryption => var _ := k.Finalize(Encrypting);
        case FinalizeDecryption => var _ := k.Finalize(Decrypting);
        case Reset => k.Reset();
      }
    }
    k.Reset();
    GcmRun(k, dir, chunks);
    calls := k.calls;
  }
}
