/**
  client/public/rnnoise-worklet.js: the denoiser works on frames of 480 samples while the audio
  graph runs in quanta of another size. Samples are reals and the denoiser itself is a parameter:
  a function from its state and a frame to its next state and a frame.
 */
module Rnnoise {
  import opened Arithmetic
  import opened Sequences

  /** Samples per call of the model. */
  const FRAME: nat := 480

  /** The model wants samples in 16-bit scale. */
  const SCALE := 32768.0

  type Model<!St> = (St, seq<real>) -> (St, seq<real>)

  /** The model turns a frame into a frame. */
  ghost predicate KeepsFrames<St(!new)>(model: Model<St>) {
    forall st, x :: KeepsFrame(model, st, x)
  }

  predicate KeepsFrame<St>(model: Model<St>, st: St, x: seq<real>) {
    |x| == FRAME ==> |model(st, x).1| == FRAME
  }

  function ScaledUp(x: seq<real>): seq<real> { Map(s => s * SCALE, x) }

  function ScaledDown(x: seq<real>): seq<real> { Map(s => s / SCALE, x) }

  /** One frame through the model, in Web Audio scale on both sides. */
  function Denoised<St>(model: Model<St>, st: St, x: seq<real>): (St, seq<real>) {
    var (next, y) := model(st, ScaledUp(x));
    (next, ScaledDown(y))
  }

  /** The whole frames of a recording denoised one after the other, and the state after them. */
  function Batch<St>(model: Model<St>, st: St, x: seq<real>): (St, seq<real>)
    decreases |x|
  {
    if |x| < FRAME then (st, [])
    else
      var (mid, y) := Denoised(model, st, x[..FRAME]);
      var (last, ys) := Batch(model, mid, x[FRAME..]);
      (last, y + ys)
  }

  /** The samples behind the last whole frame. */
  function Remainder(x: seq<real>): (r: seq<real>)
    ensures |r| < FRAME
    decreases |x|
  {
    if |x| < FRAME then x else Remainder(x[FRAME..])
  }

  // ---- The processor -----------------------------------------------------------------------------------

  datatype Buffers<St> = Buffers(state: St, input: seq<real>, output: seq<real>)

  /** Queue a block and denoise every whole frame there is. */
  function Drained<St>(b: Buffers<St>, model: Model<St>, block: seq<real>): Buffers<St> {
    var all := b.input + block;
    var (st, ys) := Batch(model, b.state, all);
    Buffers(st, Remainder(all), b.output + ys)
  }

  /** One quantum: the buffers afterwards, and the samples emitted unless the quantum is silent. */
  function Quantum<St>(b: Buffers<St>, model: Model<St>, block: seq<real>, n: nat): (Buffers<St>, bool, seq<real>) {
    var d := Drained(b, model, block);
    if |d.output| >= n then (d.(output := d.output[n..]), false, d.output[..n]) else (d, true, Zeros(n))
  }

  function Zeros(n: nat): seq<real> {
    seq(n, _ => 0.0)
  }

  class RnnoiseProcessor<St(!new)> {
    const model: Model<St>
    /** Whether the wasm module has been instantiated; until then audio passes through. */
    var ready: bool
    var state: St
    var input: seq<real>
    var output: seq<real>

    constructor (model: Model<St>, state: St)
      ensures !ready && this.model == model && Contents() == Buffers(state, [], [])
    {
      this.model := model;
      ready, this.state, input, output := false, state, [], [];
    }

    ghost function Contents(): Buffers<St>
      reads this
    {
      Buffers(state, input, output)
    }

    /** The wasm module has been instantiated, with a fresh model state. */
    method Instantiated(initial: St)
      modifies this
      ensures ready && Contents() == old(Contents()).(state := initial)
    {
      state, ready := initial, true;
    }

    /** Instantiation failed: audio keeps passing through. */
    method Failed()
      modifies this
      ensures !ready && Contents() == old(Contents())
    {
      ready := false;
    }

    /** One render quantum; `block` is empty when the track has ended, `out` null when nothing listens. */
    method Process(block: seq<real>, out: array?<real>)
      requires KeepsFrames(model)
      modifies this`state, this`input, this`output, if out == null then {} else {out}
      ensures out == null || block == [] || !ready ==> Contents() == old(Contents())
      ensures out != null && block == [] ==> out[..] == Zeros(out.Length)
      ensures out != null && block != [] && !ready ==>
        forall i :: 0 <= i < out.Length ==> out[i] == if i < |block| then block[i] else old(out[..])[i]
      ensures out != null && block != [] && ready ==>
        var (after, silent, samples) := Quantum(old(Contents()), model, block, out.Length);
        Contents() == after && out[..] == samples
    {
      if out == null {
        return;
      }
      if block == [] {
        FillFrom(out, Zeros(out.Length));
        return;
      }
      if !ready {
        FillFrom(out, if |block| <= out.Length then block else block[..out.Length]);
        return;
      }
      ghost var before := Contents();
      input := input + block;
      DrainFrames();
      assert Contents() == Drained(before, model, block) by {
        assert [] + (before.input + block) == before.input + block;
      }
      var n := out.Length;
      if |output| >= n {
        FillFrom(out, output[..n]);
        output := output[n..];
      } else {
        FillFrom(out, Zeros(n));
      }
    }

    /** Copies a frame into the model's memory, runs the model, and copies the result out. */
    method ProcessFrame(x: seq<real>) returns (frame: seq<real>)
      requires KeepsFrames(model) && |x| == FRAME
      modifies this`state
      ensures (state, frame) == Denoised(model, old(state), x)
    {
      var heap := new real[FRAME];
      for i := 0 to FRAME
        invariant state == old(state)
        invariant heap[..i] == ScaledUp(x)[..i]
      {
        heap[i] := x[i] * SCALE;
        TakeOneMore(ScaledUp(x), i);
        assert heap[..i + 1] == heap[..i] + [heap[i]];
      }
      assert heap[..] == heap[..FRAME] == ScaledUp(x);
      assert KeepsFrame(model, state, heap[..]);
      var (next, y) := model(state, heap[..]);
      state := next;
      var out := new real[FRAME];
      for i := 0 to FRAME
        invariant state == next
        invariant out[..i] == ScaledDown(y)[..i]
      {
        out[i] := y[i] / SCALE;
        TakeOneMore(ScaledDown(y), i);
        assert out[..i + 1] == out[..i] + [out[i]];
      }
      assert out[..] == out[..FRAME] == ScaledDown(y);
      frame := out[..];
    }

    /** Moves every whole frame of `input` through the model into `output`. */
    method DrainFrames()
      requires KeepsFrames(model)
      modifies this`state, this`input, this`output
      ensures Contents() == Drained(old(Contents()).(input := []), model, old(input))
    {
      var consumed := 0;
      var produced: seq<seq<real>> := [];
      assert [] + input == input;
      assert [] + Batch(model, state, input).1 == Batch(model, state, input).1;
      while |input| - consumed >= FRAME
        invariant consumed == 0 ==> state == old(state) && produced == []
        invariant 0 <= consumed <= |input| && input == old(input) && output == old(output)
        invariant Remainder(input) == Remainder(input[consumed..])
        invariant Batch(model, old(state), input).0 == Batch(model, state, input[consumed..]).0
        invariant Batch(model, old(state), input).1 == Concat(produced) + Batch(model, state, input[consumed..]).1
      {
        ghost var rest := input[consumed..];
        ghost var before := state;
        assert rest[..FRAME] == input[consumed..consumed + FRAME];
        assert rest[FRAME..] == input[consumed + FRAME..];
        var frame := ProcessFrame(input[consumed..consumed + FRAME]);
        ConcatSnoc(produced, frame);
        Reassociate(Concat(produced), frame, Batch(model, state, rest[FRAME..]).1);
        produced := produced + [frame];
        consumed := consumed + FRAME;
      }
      NothingProduced(model, state, input[consumed..]);
      assert Concat(produced) + [] == Concat(produced);
      ghost var last := state;
      if consumed == 0 {
        assert Concat(produced) == [] && input[0..] == input;
        assert output + [] == output;
        return;
      }
      input := input[consumed..];
      for k := 0 to |produced|
        invariant output == old(output) + Concat(produced[..k])
        invariant state == last
        invariant input == Remainder(old(input))
      {
        TakeOneMore(produced, k);
        ConcatSnoc(produced[..k], produced[k]);
        output := output + produced[k];
      }
      assert produced[..|produced|] == produced;
    }
  }

  lemma NothingProduced<St>(model: Model<St>, st: St, x: seq<real>)
    requires |x| < FRAME
    ensures Batch(model, st, x) == (st, []) && Remainder(x) == x
  {
  }

  /** `TypedArray.set` at the start of the array. */
  method FillFrom(out: array<real>, source: seq<real>)
    requires |source| <= out.Length
    modifies out
    ensures out[..] == source + old(out[..])[|source|..]
    ensures |source| == out.Length ==> out[..] == source
  {
    for i := 0 to |source|
      invariant forall j :: 0 <= j < i ==> out[j] == source[j]
      invariant forall j :: i <= j < out.Length ==> out[j] == old(out[j])
    {
      out[i] := source[i];
    }
  }

  // ---- Streaming refines batch denoising ---------------------------------------------------------------

  /** A run from the moment the model is ready: the buffers, what was emitted, and how many quanta were silent. */
  datatype Trace<St> = Trace(buffers: Buffers<St>, emitted: seq<real>, silent: nat)

  /** A quantum with input: the block and the length of the output buffer. */
  type Step = (seq<real>, nat)

  function Run<St>(model: Model<St>, st: St, steps: seq<Step>): Trace<St> {
    if steps == [] then Trace(Buffers(st, [], []), [], 0)
    else
      var t := Run(model, st, steps[..|steps| - 1]);
      var (block, n) := steps[|steps| - 1];
      var (b, silent, samples) := Quantum(t.buffers, model, block, n);
      Trace(b, if silent then t.emitted else t.emitted + samples, if silent then t.silent + 1 else t.silent)
  }

  function Fed(steps: seq<Step>): seq<real> {
    if steps == [] then [] else Fed(steps[..|steps| - 1]) + steps[|steps| - 1].0
  }

  /** Denoising can be resumed: only the remainder of what came before matters. */
  lemma {:induction false} BatchResumes<St>(model: Model<St>, st: St, a: seq<real>, b: seq<real>)
    ensures Batch(model, st, a + b).0 == Batch(model, Batch(model, st, a).0, Remainder(a) + b).0
    ensures Batch(model, st, a + b).1 == Batch(model, st, a).1 + Batch(model, Batch(model, st, a).0, Remainder(a) + b).1
    ensures Remainder(a + b) == Remainder(Remainder(a) + b)
    decreases |a|
  {
    if |a| < FRAME {
      var ys := Batch(model, st, a + b).1;
      assert [] + ys == ys;
    } else {
      assert (a + b)[..FRAME] == a[..FRAME];
      assert (a + b)[FRAME..] == a[FRAME..] + b;
      var (mid, y) := Denoised(model, st, a[..FRAME]);
      BatchResumes(model, mid, a[FRAME..], b);
      Reassociate(y, Batch(model, mid, a[FRAME..]).1, Batch(model, Batch(model, st, a).0, Remainder(a) + b).1);
    }
  }

  /**
    Whatever the sizes of the quanta, what has been emitted followed by what waits to be emitted
    is the batch denoising of everything fed in, so the output is always a prefix of it.
   */
  lemma {:induction false} StreamingIsBatch<St>(model: Model<St>, st: St, steps: seq<Step>)
    ensures var t := Run(model, st, steps); t.emitted + t.buffers.output == Batch(model, st, Fed(steps)).1
    ensures var t := Run(model, st, steps); t.buffers.state == Batch(model, st, Fed(steps)).0
    ensures var t := Run(model, st, steps); t.buffers.input == Remainder(Fed(steps))
    ensures Run(model, st, steps).emitted <= Batch(model, st, Fed(steps)).1
  {
    if steps == [] {
    } else {
      var t := Run(model, st, steps[..|steps| - 1]);
      var (block, n) := steps[|steps| - 1];
      var fed := Fed(steps[..|steps| - 1]);
      StreamingIsBatch(model, st, steps[..|steps| - 1]);
      BatchResumes(model, st, fed, block);
      var ys := Batch(model, t.buffers.state, t.buffers.input + block).1;
      Reassociate(t.emitted, t.buffers.output, ys);
      var d := t.buffers.output + ys;
      if |d| >= n {
        assert d == d[..n] + d[n..];
        Reassociate(t.emitted, d[..n], d[n..]);
      }
    }
  }

  // ---- What the model is fed ---------------------------------------------------------------------------

  /** The `j`-th frame of a recording as the model gets it: 480 samples in 16-bit scale. */
  function FrameOf(x: seq<real>, j: nat): seq<real>
    requires 480 * j + 480 <= |x|
  {
    seq(480, (i: nat) requires i < 480 => x[480 * j + i] * 32768.0)
  }

  /** The state of a model that has been given the first `j` frames. */
  function StateAfter<St>(model: Model<St>, st: St, x: seq<real>, j: nat): St
    requires 480 * j <= |x|
  {
    if j == 0 then st else model(StateAfter(model, st, x, j - 1), FrameOf(x, j - 1)).0
  }

  lemma {:induction false} StateAfterFirst<St>(model: Model<St>, st: St, x: seq<real>, j: nat)
    requires 480 * j + 480 <= |x|
    ensures StateAfter(model, st, x, j + 1) == StateAfter(model, model(st, FrameOf(x, 0)).0, x[480..], j)
  {
    if j == 0 {
      assert StateAfter(model, st, x, 0) == st;
    } else {
      StateAfterFirst(model, st, x, j - 1);
      assert FrameOf(x[480..], j - 1) == FrameOf(x, j);
    }
  }

  /** Sample by sample: what the model answers to the frame a sample lies in, brought back from 16-bit scale. */
  lemma {:induction false} BatchSample<St(!new)>(model: Model<St>, st: St, x: seq<real>, j: nat, i: nat)
    requires KeepsFrames(model) && 480 * j + 480 <= |x| && i < 480
    ensures |model(StateAfter(model, st, x, j), FrameOf(x, j)).1| == 480 && 480 * j + i < |Batch(model, st, x).1|
    ensures Batch(model, st, x).1[480 * j + i] == model(StateAfter(model, st, x, j), FrameOf(x, j)).1[i] / 32768.0
    decreases j
  {
    assert KeepsFrame(model, StateAfter(model, st, x, j), FrameOf(x, j));
    assert KeepsFrame(model, st, ScaledUp(x[..480]));
    assert ScaledUp(x[..480]) == FrameOf(x, 0);
    var (mid, y) := Denoised(model, st, x[..480]);
    if j > 0 {
      BatchSample(model, mid, x[480..], j - 1, i);
      StateAfterFirst(model, st, x, j - 1);
      assert FrameOf(x[480..], j - 1) == FrameOf(x, j);
    }
  }

  /** Every sample ever emitted is the model's answer to the frame of the input at the same place. */
  lemma EmittedSample<St(!new)>(model: Model<St>, st: St, steps: seq<Step>, j: nat, i: nat)
    requires KeepsFrames(model) && i < 480 && 480 * j + i < |Run(model, st, steps).emitted|
    ensures 480 * j + 480 <= |Fed(steps)|
    ensures |model(StateAfter(model, st, Fed(steps), j), FrameOf(Fed(steps), j)).1| == 480
    ensures Run(model, st, steps).emitted[480 * j + i]
      == model(StateAfter(model, st, Fed(steps), j), FrameOf(Fed(steps), j)).1[i] / 32768.0
  {
    StreamingIsBatch(model, st, steps);
    BatchLength(model, st, Fed(steps));
    BatchSample(model, st, Fed(steps), j, i);
  }

  // ---- How long the stream is silent -------------------------------------------------------------------

  /** Every quantum takes in and gives out `n` samples. */
  ghost predicate Constant(steps: seq<Step>, n: nat) {
    forall i :: 0 <= i < |steps| ==> steps[i].1 == n && |steps[i].0| == n
  }

  lemma {:induction false} BatchLength<St(!new)>(model: Model<St>, st: St, x: seq<real>)
    requires KeepsFrames(model)
    ensures |Batch(model, st, x).1| + |Remainder(x)| == |x|
    ensures |Remainder(x)| == |x| % FRAME
    decreases |x|
  {
    if |x| >= FRAME {
      assert KeepsFrame(model, st, ScaledUp(x[..FRAME]));
      BatchLength(model, Denoised(model, st, x[..FRAME]).0, x[FRAME..]);
    }
  }

  lemma {:induction false} FedLength(steps: seq<Step>, n: nat)
    requires Constant(steps, n)
    ensures |Fed(steps)| == n * |steps|
  {
    if steps == [] {
    } else {
      var k := |steps| - 1;
      FedLength(steps[..k], n);
      assert n * |steps| == n * k + n;
    }
  }

  /** Conservation: the samples held back are exactly those of the silent quanta. */
  lemma {:induction false} HeldBack<St(!new)>(model: Model<St>, st: St, steps: seq<Step>, n: nat)
    requires KeepsFrames(model) && Constant(steps, n)
    ensures var t := Run(model, st, steps); n * t.silent == |t.buffers.input| + |t.buffers.output|
    ensures var t := Run(model, st, steps); |t.emitted| == n * (|steps| - t.silent)
    ensures Run(model, st, steps).silent <= |steps|
  {
    EmittedLength(model, st, steps, n);
    StreamingIsBatch(model, st, steps);
    BatchLength(model, st, Fed(steps));
    FedLength(steps, n);
    var t := Run(model, st, steps);
    assert n * (|steps| - t.silent) == n * |steps| - n * t.silent;
  }

  lemma {:induction false} EmittedLength<St>(model: Model<St>, st: St, steps: seq<Step>, n: nat)
    requires Constant(steps, n)
    ensures var t := Run(model, st, steps); t.silent <= |steps| && |t.emitted| == n * (|steps| - t.silent)
  {
    if steps == [] {
    } else {
      var k := |steps| - 1;
      EmittedLength(model, st, steps[..k], n);
      MulSucc(n, k - Run(model, st, steps[..k]).silent);
      OneQuantumLength(model, st, steps);
    }
  }

  lemma OneQuantumLength<St>(model: Model<St>, st: St, steps: seq<Step>)
    requires steps != []
    ensures var t, u := Run(model, st, steps[..|steps| - 1]), Run(model, st, steps);
      || (u.silent == t.silent + 1 && |u.emitted| == |t.emitted|)
      || (u.silent == t.silent && |u.emitted| == |t.emitted| + steps[|steps| - 1].1)
  {
  }

  /** The samples of the first `k` quanta that do not fill a frame. */
  function Unfilled(n: nat, k: nat): nat {
    (n * k) % FRAME
  }

  /** `s` silent quanta cover what is unfilled at every quantum up to the `m`-th. */
  ghost predicate Covers(n: nat, s: nat, m: nat) {
    forall k :: 0 <= k <= m ==> Unfilled(n, k) <= n * s
  }

  /** One silent quantum less would not. */
  ghost predicate Needed(n: nat, s: nat, m: nat) {
    s > 0 ==> exists k :: 0 <= k <= m && n * (s - 1) < Unfilled(n, k)
  }

  /**
    The exact count: after any number of quanta of `n` samples, the silent ones are the least
    number whose samples cover the unfilled part at every quantum so far.
   */
  lemma {:induction false} SilentExactly<St(!new)>(model: Model<St>, st: St, steps: seq<Step>, n: nat)
    requires KeepsFrames(model) && Constant(steps, n) && n >= 1
    ensures Covers(n, Run(model, st, steps).silent, |steps|) && Needed(n, Run(model, st, steps).silent, |steps|)
  {
    if steps == [] {
      assert Unfilled(n, 0) == 0 by { assert n * 0 == 0; }
    } else {
      var k := |steps| - 1;
      SilentExactly(model, st, steps[..k], n);
      LastQuantum(model, st, steps, n);
      NextSilence(n, Run(model, st, steps[..k]).silent, k);
    }
  }

  lemma NextSilence(n: nat, s: nat, k: nat)
    requires Covers(n, s, k) && Needed(n, s, k)
    ensures var t := if Unfilled(n, k + 1) > n * s then s + 1 else s; Covers(n, t, k + 1) && Needed(n, t, k + 1)
  {
    UnfilledGrows(n, k);
    MulSucc(n, s);
    assert Unfilled(n, k) <= n * s;
  }

  lemma UnfilledGrows(n: nat, k: nat)
    ensures Unfilled(n, k + 1) <= Unfilled(n, k) + n
  {
    var a := n * k;
    assert n * (k + 1) == a + n;
    var q, r := a / FRAME, a % FRAME;
    assert a == FRAME * q + r;
    ModSum(r + n, FRAME, q);
  }

  lemma ModSum(r: nat, d: nat, q: int)
    requires d > 0
    ensures (d * q + r) % d <= r
  {
    var p := r / d;
    assert r == d * p + r % d;
    assert d * (q + p) == d * q + d * p;
    DivIs(d * q + r, d, q + p, r % d);
    DivNonNegative(r, d);
    MulMono(d, 0, p);
  }

  /** A quantum is silent exactly when the silence so far does not cover its unfilled samples. */
  lemma LastQuantum<St(!new)>(model: Model<St>, st: St, steps: seq<Step>, n: nat)
    requires KeepsFrames(model) && Constant(steps, n) && steps != []
    ensures var s := Run(model, st, steps[..|steps| - 1]).silent;
      Run(model, st, steps).silent == if Unfilled(n, |steps|) > n * s then s + 1 else s
  {
    var k := |steps| - 1;
    var t := Run(model, st, steps[..k]);
    var block := steps[k].0;
    HeldBack(model, st, steps[..k], n);
    StreamingIsBatch(model, st, steps[..k]);
    BatchLength(model, t.buffers.state, t.buffers.input + block);
    BatchLength(model, st, Fed(steps));
    FedLength(steps, n);
    BatchResumes(model, st, Fed(steps[..k]), block);
    assert |Remainder(t.buffers.input + block)| == Unfilled(n, |steps|);
    var d := Drained(t.buffers, model, block);
    assert |d.output| == n * t.silent + n - Unfilled(n, |steps|);
  }

  /** The delay is bounded: at most ⌊478/n⌋ + 1 quanta are ever silent. */
  lemma SilenceIsBounded<St(!new)>(model: Model<St>, st: St, steps: seq<Step>, n: nat)
    requires KeepsFrames(model) && Constant(steps, n) && n >= 1
    ensures Run(model, st, steps).silent <= 478 / n + 1
  {
    SilentExactly(model, st, steps, n);
    var s := Run(model, st, steps).silent;
    if s > 0 {
      DivBound(n, s - 1, 478);
    } else {
      DivNonNegative(478, n);
    }
  }

  /**
    With the 128-sample quanta of the Web Audio API the silent quanta are the first, second,
    third and seventh: not one run of silence at the start, and none after that.
   */
  lemma {:induction false} SilentAt128<St(!new)>(model: Model<St>, st: St, steps: seq<Step>)
    requires KeepsFrames(model) && Constant(steps, 128)
    ensures var k := |steps|; Run(model, st, steps).silent == if k <= 3 then k else if k <= 6 then 3 else 4
  {
    if steps == [] {
    } else {
      var k := |steps|;
      SilentAt128(model, st, steps[..k - 1]);
      LastQuantum(model, st, steps, 128);
      SilenceIsBounded(model, st, steps, 128);
    }
  }
}
