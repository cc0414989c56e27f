/** The modes behind the cipher interface: each mode's object, driven by any
    sequence of requests, is a run of the state machine of CipherLifecycle over a
    provider that is a plain function. What is proved there of every provider
    therefore holds of the modes. */
module ModeRuns {
  import opened Bytes
  import opened BlockCiphers
  import opened CipherLifecycle
  import CipherCommon
  import CbcSpec
  import Cbc
  import Ctr
  import Gcm
  import KeyWrapSpec
  import KeyWrap

  /** What the interface reports, by what the mode reports. */
  function Reported(status: CipherCommon.Status): Outcome {
    match status
    case Success => Done
    case BufferTooLarge => TooLarge
    case InvalidState => NotGood
    case _ => ProviderError
  }

  // ---------------------------------------------------------------- CBC

  datatype CbcState = CbcState(chain: Block, overflow: bytes)

  function CbcAnswer(c: BlockCipher, iv: Block, s: CbcState, good: bool, q: Request): Reply<CbcState> {
    match q
    case Encrypt(x) =>
      var all := s.overflow + x;
      var n := Cbc.Sent(|all|);
      var o := CbcSpec.CbcEnc(c, s.chain, all[..n]);
      Reply(CbcState(CbcSpec.NextChain(s.chain, o), all[n..]), good, true, o)
    case Decrypt(x) =>
      var all := s.overflow + x;
      var n := Cbc.Sent(|all|);
      Reply(CbcState(CbcSpec.NextChain(s.chain, all[..n]), all[n..]), good, true, CbcSpec.CbcDec(c, s.chain, all[..n]))
    case FinalizeEncryption =>
      var o := CbcSpec.Seal(c, s.chain, s.overflow);
      Reply(CbcState(CbcSpec.NextChain(s.chain, o), []), good, true, o)
    case FinalizeDecryption =>
      var m := CbcSpec.Open(c, s.chain, s.overflow);
      Reply(CbcState(s.chain, []), good && m.Some?, m.Some?, if m.Some? then m.value else [])
    case Reset => Reply(CbcState(iv, []), good, true, [])
  }

  function CbcVtable(c: BlockCipher, iv: Block): Vtable<CbcState> {
    Vtable(BLOCK_SIZE, (s: CbcState, good: bool, q: Request) => CbcAnswer(c, iv, s, good, q))
  }

  ghost function CbcView(k: Cbc.CbcCipher, out: GrowableBuf, log: seq<Request>): Cipher<CbcState>
    reads k, out
  {
    Cipher(CbcState(k.chain, k.overflow), k.good, out.contents, log)
  }

  method CbcUpdate(k: Cbc.CbcCipher, q: Request, out: GrowableBuf, ghost log: seq<Request>)
    returns (outcome: Outcome, ghost log': seq<Request>)
    requires k.Sound() && k.iv != out && (q.Encrypt? || q.Decrypt?)
    modifies k`chain, k`overflow, k`padding, k`good, k`fed, k`emitted, out
    ensures k.Sound() && k.iv.contents == old(k.iv.contents)
    ensures var v, before := CbcVtable(k.cipher, k.iv.contents), old(CbcView(k, out, log));
            CbcView(k, out, log') == Step(v, before, q) && outcome == OutcomeOf(v, before, q)
  {
    hide CbcSpec.CbcEnc, CbcSpec.CbcDec, CbcSpec.NextChain, CbcSpec.Seal, CbcSpec.Open, Cbc.Sent;
    log' := if Reaches(CbcVtable(k.cipher, k.iv.contents), k.good, q) then log + [q] else log;
    if q.Encrypt? {
      var status, _ := k.Encrypt(q.input, out);
      outcome := Reported(status);
    } else {
      var status, _ := k.Decrypt(q.input, out);
      outcome := Reported(status);
    }
  }

  method CbcFinalize(k: Cbc.CbcCipher, q: Request, out: GrowableBuf, ghost log: seq<Request>)
    returns (outcome: Outcome, ghost log': seq<Request>)
    requires k.Sound() && k.iv != out && IsFinalize(q)
    modifies k`chain, k`overflow, k`padding, k`good, k`emitted, out
    ensures k.Sound() && k.iv.contents == old(k.iv.contents)
    ensures var v, before := CbcVtable(k.cipher, k.iv.contents), old(CbcView(k, out, log));
            CbcView(k, out, log') == Step(v, before, q) && outcome == OutcomeOf(v, before, q)
  {
    hide CbcSpec.CbcEnc, CbcSpec.CbcDec, CbcSpec.NextChain, CbcSpec.Seal, CbcSpec.Open, Cbc.Sent;
    log' := if Reaches(CbcVtable(k.cipher, k.iv.contents), k.good, q) then log + [q] else log;
    AppendNothing(out.contents, []);
    if q.FinalizeEncryption? {
      var status, _ := k.FinalizeEncryption(out);
      outcome := Reported(status);
    } else {
      var status, _ := k.FinalizeDecryption(out);
      outcome := Reported(status);
    }
  }

  lemma CbcResets(c: BlockCipher, iv: Block, before: Cipher<CbcState>)
    ensures Step(CbcVtable(c, iv), before, Reset)
         == Cipher(CbcState(iv, []), true, before.out, before.reached + [Reset])
    ensures OutcomeOf(CbcVtable(c, iv), before, Reset) == Done
  {
    AppendNothing(before.out, []);
  }

  method CbcRequest(k: Cbc.CbcCipher, q: Request, out: GrowableBuf, ghost log: seq<Request>)
    returns (outcome: Outcome, ghost log': seq<Request>)
    requires k.Sound() && k.iv != out
    modifies k`chain, k`overflow, k`padding, k`good, k`fed, k`emitted, k.workingIv, out
    ensures k.Sound() && k.iv.contents == old(k.iv.contents)
    ensures var v, before := CbcVtable(k.cipher, k.iv.contents), old(CbcView(k, out, log));
            CbcView(k, out, log') == Step(v, before, q) && outcome == OutcomeOf(v, before, q)
  {
    hide Step, OutcomeOf, CbcVtable, Cbc.Sealing, Cbc.Opening;
    CbcResets(k.cipher, k.iv.contents, CbcView(k, out, log));
    match q {
      case Reset => k.Reset(); outcome, log' := Done, log + [q];
      case Encrypt(_) => outcome, log' := CbcUpdate(k, q, out, log);
      case Decrypt(_) => outcome, log' := CbcUpdate(k, q, out, log);
      case _ => outcome, log' := CbcFinalize(k, q, out, log);
    }
  }

  /** Every sequence of requests to a CBC cipher is a run over its provider. */
  method CbcRequests(k: Cbc.CbcCipher, qs: seq<Request>, out: GrowableBuf) returns (ghost log: seq<Request>)
    requires k.Sound() && k.iv != out
    modifies k`chain, k`overflow, k`padding, k`good, k`fed, k`emitted, k.workingIv, out
    ensures k.Sound() && k.iv.contents == old(k.iv.contents)
    ensures CbcView(k, out, log) == Run(CbcVtable(k.cipher, k.iv.contents), old(CbcView(k, out, [])), qs)
  {
    hide Step, OutcomeOf, CbcVtable;
    log := [];
    ghost var v, before := CbcVtable(k.cipher, k.iv.contents), CbcView(k, out, []);
    for i := 0 to |qs|
      invariant k.Sound() && k.iv.contents == old(k.iv.contents)
      invariant CbcView(k, out, log) == Run(v, before, qs[..i])
    {
      RunOneMore(v, before, qs, i);
      var _, more := CbcRequest(k, qs[i], out, log);
      log := more;
    }
    assert qs[..|qs|] == qs;
  }

  // ---------------------------------------------------------------- CTR

  function Behind(s: bytes, k: nat): bytes {
    if k <= |s| then s[k..] else []
  }

  function CtrUpTo(c: BlockCipher, iv: Block, fed: bytes, n: nat): bytes {
    Ctr.Ctr(c, iv, if n <= |fed| then fed[..n] else fed)
  }

  /** The provider's state is the input of the run so far. */
  function CtrAnswer(c: BlockCipher, iv: Block, fed: bytes, good: bool, q: Request): Reply<bytes> {
    var sent := 16 * (|fed| / 16);
    match q
    case Reset => Reply([], good, true, [])
    case FinalizeEncryption => Reply(fed, good, Ctr.CounterLasts(iv, |fed|), Behind(Ctr.Ctr(c, iv, fed), sent))
    case FinalizeDecryption => Reply(fed, good, Ctr.CounterLasts(iv, |fed|), Behind(Ctr.Ctr(c, iv, fed), sent))
    case _ =>
      var all := fed + InputOf(q);
      if Ctr.InitialCounter(iv) + |all| / 16 < Ctr.COUNTER_RANGE then
        Reply(all, good, true, Behind(CtrUpTo(c, iv, all, 16 * (|all| / 16)), sent))
      else
        Reply(all, false, false, Behind(CtrUpTo(c, iv, all, 16 * Ctr.CountersLeft(iv, 0)), sent))
  }

  function CtrVtable(c: BlockCipher, iv: Block): Vtable<bytes> {
    Vtable(BLOCK_SIZE, (s: bytes, good: bool, q: Request) => CtrAnswer(c, iv, s, good, q))
  }

  ghost function CtrView(k: Ctr.CtrCipher, out: GrowableBuf, log: seq<Request>): Cipher<bytes>
    reads k, out
  {
    Cipher(k.fed, k.good, out.contents, log)
  }

  lemma InStepLength(k: Ctr.CtrCipher)
    requires k.InStep()
    ensures |k.emitted| == 16 * (|k.fed| / 16)
  {
  }

  lemma Released(emitted: bytes, released: bytes)
    ensures Behind(emitted + released, |emitted|) == released
  {
  }

  lemma WholeBlocksFit(n: nat)
    ensures 16 * (n / 16) <= n
  {
  }

  method CtrRequest(k: Ctr.CtrCipher, q: Request, out: GrowableBuf, ghost log: seq<Request>)
    returns (outcome: Outcome, ghost log': seq<Request>)
    requires k.Valid()
    modifies k`workingIv, k`overflow, k`good, k`fed, k`emitted, out
    ensures k.Valid()
    ensures var v, before := CtrVtable(k.cipher, k.iv), old(CtrView(k, out, log));
            CtrView(k, out, log') == Step(v, before, q) && outcome == OutcomeOf(v, before, q)
  {
    hide Ctr.Ctr, Ctr.CounterLasts, Ctr.InitialCounter, Ctr.CountersLeft, Ctr.Between, Behind, CtrUpTo;
    log' := if Reaches(CtrVtable(k.cipher, k.iv), k.good, q) then log + [q] else log;
    AppendNothing(out.contents, []);
    ghost var emitted := k.emitted;
    if k.good {
      InStepLength(k);
    }
    match q {
      case Reset => k.Reset(); outcome := Done;
      case Encrypt(x) => outcome := CtrUpdate(k, x, out);
      case Decrypt(x) => outcome := CtrUpdate(k, x, out);
      case _ =>
        var status, released := k.Finalize(out);
        Released(emitted, released);
        outcome := Reported(status);
    }
  }

  /** What the answer says of an update, apart from the request it came by. */
  function CtrReply(c: BlockCipher, iv: Block, fed: bytes, good: bool, x: bytes): Reply<bytes> {
    CtrAnswer(c, iv, fed, good, Request.Encrypt(x))
  }

  method CtrUpdate(k: Ctr.CtrCipher, x: bytes, out: GrowableBuf) returns (outcome: Outcome)
    requires k.Valid()
    modifies k`workingIv, k`overflow, k`good, k`fed, k`emitted, out
    ensures k.Valid()
    ensures outcome == if !CipherCommon.WithinLimits(|x|, BLOCK_SIZE) then TooLarge else if !old(k.good) then NotGood
                       else if CtrReply(k.cipher, k.iv, old(k.fed), true, x).ok then Done else ProviderError
    ensures outcome == TooLarge || outcome == NotGood ==> unchanged(k) && unchanged(out)
    ensures outcome == Done || outcome == ProviderError ==>
              var r := CtrReply(k.cipher, k.iv, old(k.fed), true, x);
              k.fed == r.state && k.good == r.good && out.contents == old(out.contents) + r.output
  {
    hide Ctr.Ctr, Ctr.InitialCounter, Ctr.CountersLeft, Ctr.Between, Behind;
    ghost var emitted := k.emitted;
    if k.good {
      InStepLength(k);
    }
    var status, released := k.Encrypt(x, out);
    outcome := Reported(status);
    Released(emitted, released);
    WholeBlocksFit(|k.fed|);
    if status == CipherCommon.Success {
      InStepEmitted(k);
    }
  }

  lemma InStepEmitted(k: Ctr.CtrCipher)
    requires k.InStep()
    ensures k.emitted == Ctr.Ctr(k.cipher, k.iv, k.fed[..16 * (|k.fed| / 16)])
  {
  }

  /** Every sequence of requests to a CTR cipher is a run over its provider. */
  method CtrRequests(k: Ctr.CtrCipher, qs: seq<Request>, out: GrowableBuf) returns (ghost log: seq<Request>)
    requires k.Valid()
    modifies k`workingIv, k`overflow, k`good, k`fed, k`emitted, out
    ensures k.Valid()
    ensures CtrView(k, out, log) == Run(CtrVtable(k.cipher, k.iv), old(CtrView(k, out, [])), qs)
  {
    hide Step, OutcomeOf, CtrVtable;
    log := [];
    ghost var v, before := CtrVtable(k.cipher, k.iv), CtrView(k, out, []);
    for i := 0 to |qs|
      invariant k.Valid()
      invariant CtrView(k, out, log) == Run(v, before, qs[..i])
    {
      RunOneMore(v, before, qs, i);
      var _, more := CtrRequest(k, qs[i], out, log);
      log := more;
    }
    assert qs[..|qs|] == qs;
  }

  // ---------------------------------------------------------------- GCM

  datatype GcmState = GcmState(overflow: bytes, chaining: bool, calls: seq<Gcm.Call>)

  function GcmUpdated(s: GcmState, dir: Gcm.Direction, x: bytes): GcmState {
    if x == [] then s
    else
      var all := s.overflow + x;
      var n := Gcm.Passed(|all|);
      GcmState(all[n..], s.chaining, s.calls + if n == 0 then [] else [Gcm.Call(dir, all[..n], s.chaining)])
  }

  function GcmEnded(s: GcmState, dir: Gcm.Direction): GcmState {
    GcmState([], false, s.calls + if s.overflow == [] then [] else [Gcm.Call(dir, s.overflow, false)])
  }

  function GcmAnswer(s: GcmState, good: bool, q: Request): Reply<GcmState> {
    var s' := match q
      case Encrypt(x) => GcmUpdated(s, Gcm.Encrypting, x)
      case Decrypt(x) => GcmUpdated(s, Gcm.Decrypting, x)
      case FinalizeEncryption => GcmEnded(s, Gcm.Encrypting)
      case FinalizeDecryption => GcmEnded(s, Gcm.Decrypting)
      case Reset => GcmState([], true, []);
    Reply(s', good, true, [])
  }

  const GCM_VTABLE: Vtable<GcmState> :=
    Vtable(BLOCK_SIZE, (s: GcmState, good: bool, q: Request) => GcmAnswer(s, good, q))

  ghost function GcmView(k: Gcm.GcmCipher, log: seq<Request>): Cipher<GcmState>
    reads k
  {
    Cipher(GcmState(k.overflow, k.chaining, k.calls), k.good, [], log)
  }

  method GcmUpdate(k: Gcm.GcmCipher, dir: Gcm.Direction, x: bytes) returns (outcome: Outcome)
    modifies k
    ensures k.good == old(k.good)
    ensures outcome == if !CipherCommon.WithinLimits(|x|, BLOCK_SIZE) then TooLarge else if !k.good then NotGood else Done
    ensures var s := old(GcmView(k, [])).provider;
            GcmView(k, []).provider == if outcome == Done then GcmUpdated(s, dir, x) else s
  {
    hide Gcm.Passed, Gcm.Between;
    var status := k.Update(dir, x);
    outcome := Reported(status);
  }

  method GcmFinalize(k: Gcm.GcmCipher, dir: Gcm.Direction) returns (outcome: Outcome)
    modifies k
    ensures !k.good && outcome == if old(k.good) then Done else NotGood
    ensures var s := old(GcmView(k, [])).provider;
            GcmView(k, []).provider == if outcome == Done then GcmEnded(s, dir) else s
  {
    hide Gcm.Between, Gcm.Finished;
    var status := k.Finalize(dir);
    outcome := Reported(status);
  }

  method GcmRequest(k: Gcm.GcmCipher, q: Request, ghost log: seq<Request>)
    returns (outcome: Outcome, ghost log': seq<Request>)
    modifies k
    ensures var before := old(GcmView(k, log));
            GcmView(k, log') == Step(GCM_VTABLE, before, q) && outcome == OutcomeOf(GCM_VTABLE, before, q)
  {
    hide Gcm.Passed, Gcm.Between, GcmUpdated, GcmEnded;
    log' := if Reaches(GCM_VTABLE, k.good, q) then log + [q] else log;
    match q {
      case Encrypt(x) => outcome := GcmUpdate(k, Gcm.Encrypting, x);
      case Decrypt(x) => outcome := GcmUpdate(k, Gcm.Decrypting, x);
      case FinalizeEncryption => outcome := GcmFinalize(k, Gcm.Encrypting);
      case FinalizeDecryption => outcome := GcmFinalize(k, Gcm.Decrypting);
      case Reset => k.Reset(); outcome := Done;
    }
  }

  /** Every sequence of requests to a GCM cipher is a run over its provider, which
      here is the log of the calls made. */
  method GcmRequests(k: Gcm.GcmCipher, qs: seq<Request>) returns (ghost log: seq<Request>)
    modifies k
    ensures GcmView(k, log) == Run(GCM_VTABLE, old(GcmView(k, [])), qs)
  {
    hide Step, OutcomeOf, GCM_VTABLE;
    log := [];
    ghost var before := GcmView(k, []);
    for i := 0 to |qs|
      invariant GcmView(k, log) == Run(GCM_VTABLE, before, qs[..i])
    {
      RunOneMore(GCM_VTABLE, before, qs, i);
      var _, more := GcmRequest(k, qs[i], log);
      log := more;
    }
    assert qs[..|qs|] == qs;
  }

  // ---------------------------------------------------------------- key wrap

  /** The provider's state is the text gathered; a failed check leaves the final
      integrity register in it. */
  function KeyWrapAnswer(c: BlockCipher, working: bytes, good: bool, q: Request): Reply<bytes> {
    match q
    case Encrypt(x) => Reply(working + x, good, true, [])
    case Decrypt(x) => Reply(working + x, good, true, [])
    case FinalizeEncryption =>
      if |working| < 16 then Reply(working, false, false, [])
      else Reply(working, good, true, KeyWrapSpec.Wrap(c, working))
    case FinalizeDecryption =>
      if |working| < 24 then Reply(working, false, false, [])
      else
        var (a, p) := KeyWrapSpec.Unwrap(c, working);
        var intact := a == KeyWrapSpec.INITIAL_VALUE;
        Reply(a + working[8..], good && intact, intact, if intact then p else [])
    case Reset => Reply([], true, true, [])
  }

  function KeyWrapVtable(c: BlockCipher): Vtable<bytes> {
    Vtable(KeyWrap.KEYWRAP_BLOCK_SIZE, (s: bytes, good: bool, q: Request) => KeyWrapAnswer(c, s, good, q))
  }

  ghost function KeyWrapView(k: KeyWrap.KeyWrapCipher, out: KeyWrap.RawBuf, log: seq<Request>): Cipher<bytes>
    requires out.Valid()
    reads k, out, out.data
  {
    Cipher(k.working, k.good, out.Contents(), log)
  }

  /** The functions of source/symmetric_cipher.c around those of the key wrap
      cipher, with an output buffer that can grow. */
  method KeyWrapRequest(k: KeyWrap.KeyWrapCipher, q: Request, out: KeyWrap.RawBuf, ghost log: seq<Request>)
    returns (outcome: Outcome, ghost log': seq<Request>)
    requires out.Valid() && out.growable
    modifies k, out, out.data
    ensures out.Valid() && (out.data == old(out.data) || fresh(out.data))
    ensures var v, before := KeyWrapVtable(k.cipher), old(KeyWrapView(k, out, log));
            KeyWrapView(k, out, log') == Step(v, before, q) && outcome == OutcomeOf(v, before, q)
  {
    hide KeyWrapSpec.Wrap, KeyWrapSpec.Unwrap;
    log' := if Reaches(KeyWrapVtable(k.cipher), k.good, q) then log + [q] else log;
    AppendNothing(out.Contents(), []);
    if q.Reset? {
      k.Reset();
      return Done, log';
    }
    if !CipherCommon.WithinLimits(|InputOf(q)|, KeyWrap.KEYWRAP_BLOCK_SIZE) {
      return TooLarge, log';
    }
    if !k.good {
      return NotGood, log';
    }
    if IsFinalize(q) {
      var status;
      if q.FinalizeEncryption? {
        status := k.FinalizeEncryption(out);
      } else {
        status := k.FinalizeDecryption(out);
      }
      k.good := false;
      return if status == KeyWrap.Success then Done else ProviderError, log';
    }
    k.Update(InputOf(q));
    return Done, log';
  }

  /** Every sequence of requests to a key wrap cipher is a run over its provider. */
  method KeyWrapRequests(k: KeyWrap.KeyWrapCipher, qs: seq<Request>, out: KeyWrap.RawBuf)
    returns (ghost log: seq<Request>)
    requires out.Valid() && out.growable
    modifies k, out, out.data
    ensures out.Valid()
    ensures KeyWrapView(k, out, log) == Run(KeyWrapVtable(k.cipher), old(KeyWrapView(k, out, [])), qs)
  {
    hide Step, OutcomeOf, KeyWrapVtable;
    log := [];
    ghost var v, before := KeyWrapVtable(k.cipher), KeyWrapView(k, out, []);
    for i := 0 to |qs|
      invariant out.Valid() && (out.data == old(out.data) || fresh(out.data))
      invariant KeyWrapView(k, out, log) == Run(v, before, qs[..i])
    {
      RunOneMore(v, before, qs, i);
      var _, more := KeyWrapRequest(k, qs[i], out, log);
      log := more;
    }
    assert qs[..|qs|] == qs;
  }
}
