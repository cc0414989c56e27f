/** The register schedules of section 2.2 of RFC 3394 over arbitrary register
    contents: the shift-register formulation, the indexed in-place form, and
    the in-place form run backwards. */
module KeyWrapRegisters {

  /** The integrity register A and the registers R[1], ..., R[n]. */
  datatype Registers<A, R> = Registers(a: A, r: seq<R>)

  /** What one step makes of A and one R register, given the step number t. */
  type StepFn<!A, !R> = (A, R, nat) -> (A, R)

  // ---------------------------------------------------------------- shift registers

  function ShiftStep<A, R>(f: StepFn<A, R>, st: Registers<A, R>, t: nat): (st': Registers<A, R>)
    requires st.r != []
    ensures |st'.r| == |st.r|
  {
    var (a, x) := f(st.a, st.r[0], t);
    Registers(a, st.r[1..] + [x])
  }

  /** The registers after steps 1, ..., k. */
  function Shift<A, R>(f: StepFn<A, R>, st: Registers<A, R>, k: nat): (st': Registers<A, R>)
    requires st.r != []
    ensures |st'.r| == |st.r|
  {
    if k == 0 then st else ShiftStep(f, Shift(f, st, k - 1), k)
  }

  // ---------------------------------------------------------------- in place

  function IndexStep<A, R>(f: StepFn<A, R>, st: Registers<A, R>, i: nat, t: nat): (st': Registers<A, R>)
    requires i < |st.r|
    ensures |st'.r| == |st.r|
  {
    var (a, x) := f(st.a, st.r[i], t);
    Registers(a, st.r[i := x])
  }

  /** The registers after i steps of pass j, all earlier passes being complete. */
  function Index<A, R>(f: StepFn<A, R>, st: Registers<A, R>, j: nat, i: nat): (st': Registers<A, R>)
    requires i <= |st.r|
    ensures |st'.r| == |st.r|
    decreases j, i
  {
    if i > 0 then
      IndexStep(f, Index(f, st, j, i - 1), i - 1, |st.r| * j + i)
    else if j > 0 then
      Index(f, st, j - 1, |st.r|)
    else
      st
  }

  function Rotate<A, R>(st: Registers<A, R>, i: nat): Registers<A, R>
    requires i <= |st.r|
  {
    Registers(st.a, st.r[i..] + st.r[..i])
  }

  lemma RotateStep<A, R>(f: StepFn<A, R>, st: Registers<A, R>, i: nat, t: nat)
    requires i < |st.r|
    ensures ShiftStep(f, Rotate(st, i), t) == Rotate(IndexStep(f, st, i, t), i + 1)
  {
    var s, x := Rotate(st, i), IndexStep(f, st, i, t);
    assert s.r[0] == st.r[i];
    assert s.r[1..] + [x.r[i]] == x.r[i + 1..] + x.r[..i + 1];
  }

  /** The in-place form holds the shift registers rotated by i. */
  lemma {:induction false} ShiftIsRotatedIndex<A, R>(f: StepFn<A, R>, st: Registers<A, R>, j: nat, i: nat, k: nat)
    requires st.r != [] && i <= |st.r| && k == |st.r| * j + i
    ensures Shift(f, st, k) == Rotate(Index(f, st, j, i), i)
    decreases j, i
  {
    hide Rotate, ShiftStep, IndexStep;
    var x := Index(f, st, j, i);
    RotateNone(x);
    if i > 0 {
      ShiftIsRotatedIndex(f, st, j, i - 1, k - 1);
      RotateStep(f, Index(f, st, j, i - 1), i - 1, k);
    } else if j > 0 {
      OnePassLess(|st.r|, j);
      ShiftIsRotatedIndex(f, st, j - 1, |st.r|, k);
    }
  }

  lemma RotateNone<A, R>(st: Registers<A, R>)
    ensures Rotate(st, 0) == st && Rotate(st, |st.r|) == st
  {
    assert st.r[0..] + st.r[..0] == st.r;
    assert st.r[|st.r|..] + st.r[..|st.r|] == st.r;
  }

  lemma OnePassLess(n: nat, j: nat)
    requires j > 0
    ensures n * (j - 1) + n == n * j
  {
  }

  /** Pointwise equal step functions give equal runs. */
  lemma {:induction false} ShiftCongruence<A(!new), R(!new)>(f: StepFn<A, R>, g: StepFn<A, R>, st: Registers<A, R>, k: nat)
    requires st.r != []
    requires forall a: A, x: R, t: nat :: 1 <= t <= k ==> f(a, x, t) == g(a, x, t)
    ensures Shift(f, st, k) == Shift(g, st, k)
  {
    if k > 0 {
      ShiftCongruence(f, g, st, k - 1);
    }
  }

  // ---------------------------------------------------------------- backwards

  /** Applies g at steps i, ..., 1 of pass j and then to passes j - 1, ..., 0. */
  function Undo<A, R>(g: StepFn<A, R>, st: Registers<A, R>, j: nat, i: nat): (st': Registers<A, R>)
    requires i <= |st.r|
    ensures |st'.r| == |st.r|
    decreases j, i
  {
    if i > 0 then
      Undo(g, IndexStep(g, st, i - 1, |st.r| * j + i), j, i - 1)
    else if j > 0 then
      Undo(g, st, j - 1, |st.r|)
    else
      st
  }

  ghost predicate LeftInverse<A(!new), R(!new)>(g: StepFn<A, R>, f: StepFn<A, R>) {
    forall a: A, x: R, t: nat :: var (b, y) := f(a, x, t); g(b, y, t) == (a, x)
  }

  lemma StepInverse<A(!new), R(!new)>(g: StepFn<A, R>, f: StepFn<A, R>, st: Registers<A, R>, i: nat, t: nat)
    requires LeftInverse(g, f) && i < |st.r|
    ensures IndexStep(g, IndexStep(f, st, i, t), i, t) == st
  {
    assert var (b, y) := f(st.a, st.r[i], t); g(b, y, t) == (st.a, st.r[i]);
    assert IndexStep(g, IndexStep(f, st, i, t), i, t).r == st.r;
  }

  /** Running backwards undoes running forwards ... */
  lemma {:induction false} UndoIndex<A(!new), R(!new)>(g: StepFn<A, R>, f: StepFn<A, R>, st: Registers<A, R>, j: nat, i: nat)
    requires LeftInverse(g, f) && i <= |st.r|
    ensures Undo(g, Index(f, st, j, i), j, i) == st
    decreases j, i
  {
    if i > 0 {
      StepInverse(g, f, Index(f, st, j, i - 1), i - 1, |st.r| * j + i);
      UndoIndex(g, f, st, j, i - 1);
    } else if j > 0 {
      UndoIndex(g, f, st, j - 1, |st.r|);
    }
  }

  /** ... and the other way around. */
  lemma {:induction false} IndexUndo<A(!new), R(!new)>(g: StepFn<A, R>, f: StepFn<A, R>, st: Registers<A, R>, j: nat, i: nat)
    requires LeftInverse(f, g) && i <= |st.r|
    ensures Index(f, Undo(g, st, j, i), j, i) == st
    decreases j, i
  {
    if i > 0 {
      StepInverse(f, g, st, i - 1, |st.r| * j + i);
      IndexUndo(g, f, IndexStep(g, st, i - 1, |st.r| * j + i), j, i - 1);
    } else if j > 0 {
      IndexUndo(g, f, st, j - 1, |st.r|);
    }
  }
}
