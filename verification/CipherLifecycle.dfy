/** The cipher interface of source/symmetric_cipher.c in front of any provider:
    which requests reach it, and what its `good` flag guarantees over whole runs. */
module CipherLifecycle {
  import opened Bytes
  import opened CipherCommon

  datatype Request =
    | Encrypt(input: bytes)
    | Decrypt(input: bytes)
    | FinalizeEncryption
    | FinalizeDecryption
    | Reset

  predicate IsFinalize(q: Request) {
    q.FinalizeEncryption? || q.FinalizeDecryption?
  }

  function InputOf(q: Request): bytes {
    match q
    case Encrypt(x) => x
    case Decrypt(x) => x
    case _ => []
  }

  type BlockSize = n: nat | n <= INT_MAX

  /** What a provider does with a request: its new state, the flag as it leaves
      it, whether it succeeded and what it appends to the output. */
  datatype Reply<+S> = Reply(state: S, good: bool, ok: bool, output: bytes)

  /** Any provider at all: the functions behind a cipher's vtable. */
  datatype Vtable<!S> = Vtable(blockSize: BlockSize, answer: (S, bool, Request) -> Reply<S>)

  /** A cipher, the caller's output buffer, and the requests passed on so far. */
  datatype Cipher<+S> = Cipher(provider: S, good: bool, out: bytes, reached: seq<Request>)

  datatype Outcome = Done | TooLarge | NotGood | ProviderError

  /** Which requests are passed on. */
  predicate Reaches<S>(v: Vtable<S>, good: bool, q: Request) {
    q.Reset? || (good && WithinLimits(|InputOf(q)|, v.blockSize))
  }

  /** What a request that is passed on makes of the cipher. */
  function PassedOn<S>(v: Vtable<S>, c: Cipher<S>, q: Request): Cipher<S> {
    var r := v.answer(c.provider, c.good, q);
    Cipher(r.state,
           if IsFinalize(q) then false else if q.Reset? && r.ok then true else r.good,
           c.out + (if q.Reset? then [] else r.output),
           c.reached + [q])
  }

  function Step<S>(v: Vtable<S>, c: Cipher<S>, q: Request): Cipher<S> {
    if Reaches(v, c.good, q) then PassedOn(v, c, q) else c
  }

  function OutcomeOf<S>(v: Vtable<S>, c: Cipher<S>, q: Request): Outcome {
    if !WithinLimits(|InputOf(q)|, v.blockSize) then TooLarge
    else if !Reaches(v, c.good, q) then NotGood
    else if v.answer(c.provider, c.good, q).ok then Done
    else ProviderError
  }

  function Run<S>(v: Vtable<S>, c: Cipher<S>, qs: seq<Request>): Cipher<S> {
    if qs == [] then c else Step(v, Run(v, c, qs[..|qs| - 1]), qs[|qs| - 1])
  }

  // ---------------------------------------------------------------- the object

  class SymmetricCipher<S> {
    const vtable: Vtable<S>
    var provider: S
    var good: bool
    ghost var reached: seq<Request>

    constructor (vtable: Vtable<S>, provider: S)
      ensures this.vtable == vtable && this.provider == provider && good && reached == []
    {
      this.vtable, this.provider, good := vtable, provider, true;
      reached := [];
    }

    ghost function View(out: GrowableBuf): Cipher<S>
      reads this, out
    {
      Cipher(provider, good, out.contents, reached)
    }

    /** A call through the vtable. */
    method CallProvider(q: Request, out: GrowableBuf) returns (ok: bool)
      modifies this`provider, this`good, this`reached, out
      ensures var r := vtable.answer(old(provider), old(good), q);
              && ok == r.ok && provider == r.state && good == r.good
              && out.contents == old(out.contents) + (if q.Reset? then [] else r.output)
              && reached == old(reached) + [q]
    {
      var r := vtable.answer(provider, good, q);
      provider, good, ok := r.state, r.good, r.ok;
      out.Append(if q.Reset? then [] else r.output);
      reached := reached + [q];
    }

    /** aws_symmetric_cipher_encrypt */
    method Encrypt(input: bytes, out: GrowableBuf) returns (outcome: Outcome)
      modifies this`provider, this`good, this`reached, out
      ensures View(out) == Step(vtable, old(View(out)), Request.Encrypt(input))
      ensures outcome == OutcomeOf(vtable, old(View(out)), Request.Encrypt(input))
      ensures outcome == TooLarge <==> |input| + vtable.blockSize > 2147483647
      ensures outcome == NotGood <==> |input| + vtable.blockSize <= 2147483647 && !old(good)
      ensures outcome == TooLarge || outcome == NotGood ==> unchanged(this) && unchanged(out)
      ensures outcome == Done || outcome == ProviderError ==>
                var r := vtable.answer(old(provider), true, Request.Encrypt(input));
                && provider == r.state && good == r.good && out.contents == old(out.contents) + r.output
                && (outcome == Done <==> r.ok)
    {
      if !WithinLimits(|input|, vtable.blockSize) {
        return TooLarge;
      }
      if good {
        var ok := CallProvider(Request.Encrypt(input), out);
        return if ok then Done else ProviderError;
      }
      return NotGood;
    }

    /** aws_symmetric_cipher_decrypt */
    method Decrypt(input: bytes, out: GrowableBuf) returns (outcome: Outcome)
      modifies this`provider, this`good, this`reached, out
      ensures View(out) == Step(vtable, old(View(out)), Request.Decrypt(input))
      ensures outcome == OutcomeOf(vtable, old(View(out)), Request.Decrypt(input))
      ensures outcome == TooLarge <==> |input| + vtable.blockSize > 2147483647
      ensures outcome == NotGood <==> |input| + vtable.blockSize <= 2147483647 && !old(good)
      ensures outcome == TooLarge || outcome == NotGood ==> unchanged(this) && unchanged(out)
      ensures outcome == Done || outcome == ProviderError ==>
                var r := vtable.answer(old(provider), true, Request.Decrypt(input));
                && provider == r.state && good == r.good && out.contents == old(out.contents) + r.output
                && (outcome == Done <==> r.ok)
    {
      if !WithinLimits(|input|, vtable.blockSize) {
        return TooLarge;
      }
      if good {
        var ok := CallProvider(Request.Decrypt(input), out);
        return if ok then Done else ProviderError;
      }
      return NotGood;
    }

    /** aws_symmetric_cipher_finalize_encryption and _decryption: whatever the
        provider answers, the cipher is not good afterwards. */
    method Finalize(q: Request, out: GrowableBuf) returns (outcome: Outcome)
      requires IsFinalize(q)
      modifies this`provider, this`good, this`reached, out
      ensures View(out) == Step(vtable, old(View(out)), q)
      ensures outcome == OutcomeOf(vtable, old(View(out)), q)
      ensures !good && (outcome == NotGood <==> !old(good)) && outcome != TooLarge
      ensures outcome == NotGood ==> unchanged(this) && unchanged(out)
      ensures outcome != NotGood ==>
                var r := vtable.answer(old(provider), true, q);
                provider == r.state && out.contents == old(out.contents) + r.output && (outcome == Done <==> r.ok)
    {
      if good {
        var ok := CallProvider(q, out);
        good := false;
        return if ok then Done else ProviderError;
      }
      return NotGood;
    }

    /** aws_symmetric_cipher_reset, which is not given the output buffer; here it
        is what the state is viewed with. */
    method Reset(out: GrowableBuf) returns (outcome: Outcome)
      modifies this`provider, this`good, this`reached, out
      ensures View(out) == Step(vtable, old(View(out)), Request.Reset)
      ensures outcome == OutcomeOf(vtable, old(View(out)), Request.Reset)
      ensures var r := vtable.answer(old(provider), old(good), Request.Reset);
              && provider == r.state && good == (r.ok || r.good)
              && outcome == if r.ok then Done else ProviderError
      ensures out.contents == old(out.contents)
    {
      AppendNothing(out.contents, []);
      var ok := CallProvider(Request.Reset, out);
      if ok {
        good := true;
      }
      return if ok then Done else ProviderError;
    }
  }

  /** Any sequence of calls on one object. */
  method Drive<S>(c: SymmetricCipher<S>, qs: seq<Request>, out: GrowableBuf)
    modifies c`provider, c`good, c`reached, out
    ensures c.View(out) == Run(c.vtable, old(c.View(out)), qs)
  {
    hide Step, OutcomeOf;
    var i := 0;
    while i < |qs|
      invariant 0 <= i <= |qs|
      invariant c.View(out) == Run(c.vtable, old(c.View(out)), qs[..i])
    {
      RunOneMore(c.vtable, old(c.View(out)), qs, i);
      match qs[i] {
        case Encrypt(input) => var _ := c.Encrypt(input, out);
        case Decrypt(input) => var _ := c.Decrypt(input, out);
        case Reset => var _ := c.Reset(out);
        case _ => var _ := c.Finalize(qs[i], out);
      }
      i := i + 1;
    }
    assert qs[..i] == qs;
  }

  lemma RunOneMore<S>(v: Vtable<S>, c: Cipher<S>, qs: seq<Request>, i: nat)
    requires i < |qs|
    ensures Run(v, c, qs[..i + 1]) == Step(v, Run(v, c, qs[..i]), qs[i])
  {
    hide Step;
    assert qs[..i + 1][..i] == qs[..i];
  }

  // ---------------------------------------------------------------- over whole runs

  /** The cipher after the first i requests of a run. */
  function At<S>(v: Vtable<S>, c: Cipher<S>, qs: seq<Request>, i: nat): Cipher<S>
    requires i <= |qs|
  {
    Run(v, c, qs[..i])
  }

  /** From a finalize that reaches the provider up to the next reset, no request
      reaches the provider and nothing changes, the output included. */
  lemma {:induction false} SilentAfterFinalize<S>(v: Vtable<S>, c: Cipher<S>, qs: seq<Request>, i: nat, j: nat)
    requires i < j <= |qs| && IsFinalize(qs[i]) && At(v, c, qs, i).good
    requires forall k :: i < k < j ==> qs[k] != Reset
    ensures At(v, c, qs, j) == At(v, c, qs, i + 1) && !At(v, c, qs, j).good
    ensures j < |qs| && qs[j] != Reset ==> !Reaches(v, At(v, c, qs, j).good, qs[j])
    decreases j
  {
    RunOneMore(v, c, qs, j - 1);
    hide Run;
    if j > i + 1 {
      SilentAfterFinalize(v, c, qs, i, j - 1);
    }
  }

  /** An oversized input is refused, and neither the flag nor anything else
      changes. */
  lemma OversizedIsRefused<S>(v: Vtable<S>, c: Cipher<S>, q: Request)
    requires |InputOf(q)| + v.blockSize > 2147483647
    ensures OutcomeOf(v, c, q) == TooLarge && Step(v, c, q) == c
  {
  }

  /** What can reach a provider: inputs whose length and a block fit an int, and
      nothing but a reset after a finalize. */
  ghost predicate Orderly(blockSize: BlockSize, qs: seq<Request>) {
    && (forall k :: 0 <= k < |qs| ==> |InputOf(qs[k])| + blockSize <= 2147483647)
    && (forall k :: 0 < k < |qs| && IsFinalize(qs[k - 1]) ==> qs[k] == Reset)
  }

  ghost predicate ClosedByFinalize(qs: seq<Request>) {
    qs != [] && IsFinalize(qs[|qs| - 1])
  }

  /** Whatever callers do, in whatever order, the provider sees an orderly
      sequence of requests. */
  lemma {:induction false} ProviderSeesOrderlyRequests<S>(v: Vtable<S>, c: Cipher<S>, qs: seq<Request>)
    requires c.reached == []
    ensures var e := Run(v, c, qs);
            Orderly(v.blockSize, e.reached) && (ClosedByFinalize(e.reached) ==> !e.good)
    decreases |qs|
  {
    if qs != [] {
      var k := |qs| - 1;
      ProviderSeesOrderlyRequests(v, c, qs[..k]);
      assert qs[..k + 1] == qs;
      RunOneMore(v, c, qs, k);
      hide Run;
    }
  }

  /** Refused requests leave no trace: the run is that of the requests which
      reached the provider, and all of those reach it again. */
  lemma {:induction false} RefusedRequestsLeaveNoTrace<S>(v: Vtable<S>, c: Cipher<S>, qs: seq<Request>)
    requires c.reached == []
    ensures Run(v, c, Run(v, c, qs).reached) == Run(v, c, qs)
    decreases |qs|
  {
    if qs == [] {
      assert Run(v, c, []) == c;
    } else {
      var k := |qs| - 1;
      assert qs[..k + 1] == qs;
      RunOneMore(v, c, qs, k);
      RefusedRequestsLeaveNoTrace(v, c, qs[..k]);
      var d := Run(v, c, qs[..k]);
      hide Run;
      if Reaches(v, d.good, qs[k]) {
        var rs := d.reached + [qs[k]];
        assert rs[..|d.reached|] == d.reached && rs[..|d.reached| + 1] == rs;
        RunOneMore(v, c, rs, |d.reached|);
      }
    }
  }

  /** Exactly the orderly sequences can reach a provider that succeeds and keeps
      the flag: for each there is a run in which every request is passed on. */
  lemma {:induction false} OrderlyRequestsAllReach<S>(v: Vtable<S>, c: Cipher<S>, qs: seq<Request>)
    requires c.reached == [] && c.good && Orderly(v.blockSize, qs)
    requires forall s, g, q :: v.answer(s, g, q).ok && v.answer(s, g, q).good
    ensures var e := Run(v, c, qs);
            e.reached == qs && (e.good <==> !ClosedByFinalize(qs))
    decreases |qs|
  {
    if qs != [] {
      var k := |qs| - 1;
      OrderlyRequestsAllReach(v, c, qs[..k]);
      assert qs[..k + 1] == qs;
      RunOneMore(v, c, qs, k);
      hide Run;
      assert qs[..k] + [qs[k]] == qs;
    }
  }
}
