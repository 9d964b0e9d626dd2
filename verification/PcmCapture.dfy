/**
  client/public/pcm-capture-worklet.js: microphone samples become 16-bit PCM and leave in chunks
  of about 100 ms. Samples are reals.
 */
module PcmCapture {
  import opened Sequences

  // ---- Quantisation ----------------------------------------------------------------------------------

  /** Truncation toward zero. */
  function Truncate(r: real): int {
    if r >= 0.0 then r.Floor else -((-r).Floor)
  }

  /** What storing an integer in an `Int16Array` keeps of it. */
  function ToInt16(n: int): int {
    (n + 0x8000) % 0x1_0000 - 0x8000
  }

  function Clamp(s: real): real {
    if s > 1.0 then 1.0 else if s < -1.0 then -1.0 else s
  }

  function Scale(s: real): real {
    if s < 0.0 then s * 32768.0 else s * 32767.0
  }

  function Quantise(s: real): int {
    ToInt16(Truncate(Scale(Clamp(s))))
  }

  /** Storing never wraps around: the quantised value is the truncated one and fits 16 bits. */
  lemma QuantiseFits(s: real)
    ensures Quantise(s) == Truncate(Scale(Clamp(s)))
    ensures -0x8000 <= Quantise(s) <= 0x7FFF
  {
    var c := Clamp(s);
    assert -32768.0 <= Scale(c) <= 32767.0;
  }

  lemma TruncateMonotone(a: real, b: real)
    requires a <= b
    ensures Truncate(a) <= Truncate(b)
  {
  }

  /** A louder sample never becomes a smaller number. */
  lemma QuantiseMonotone(a: real, b: real)
    requires a <= b
    ensures Quantise(a) <= Quantise(b)
  {
    QuantiseFits(a);
    QuantiseFits(b);
    TruncateMonotone(Scale(Clamp(a)), Scale(Clamp(b)));
  }

  /** The error is below one step, toward zero, and the extremes and silence are exact. */
  lemma QuantiseError(s: real)
    ensures var x := Scale(Clamp(s)); var q := Quantise(s) as real;
      if x >= 0.0 then q <= x < q + 1.0 else q - 1.0 < x <= q
    ensures Quantise(0.0) == 0
    ensures s >= 1.0 ==> Quantise(s) == 0x7FFF
    ensures s <= -1.0 ==> Quantise(s) == -0x8000
  {
    QuantiseFits(s);
    QuantiseFits(0.0);
  }

  /**
    Against the sample itself: between -1 and 1 the number stored is within one step of the sample
    scaled by 32767 or 32768, never further from zero than it; beyond, it is an extreme.
   */
  lemma QuantisedSample(s: real)
    ensures 0.0 <= s <= 1.0 ==> 0.0 <= s * 32767.0 - Quantise(s) as real < 1.0
    ensures -1.0 <= s < 0.0 ==> 0.0 <= Quantise(s) as real - s * 32768.0 < 1.0
    ensures s > 1.0 ==> Quantise(s) == 32767
    ensures s < -1.0 ==> Quantise(s) == -32768
  {
    QuantiseError(s);
  }

  // ---- The chunker -------------------------------------------------------------------------------------

  /** What has been quantised and not posted yet, and the chunks posted so far. */
  datatype Capture = Capture(pending: seq<int>, posted: seq<seq<int>>)

  function Quantised(block: seq<real>): seq<int> {
    Map(s => Quantise(s), block)
  }

  /** One render quantum; an absent channel is the empty block. */
  function Processed(c: Capture, block: seq<real>, target: nat): Capture {
    var all := c.pending + Quantised(block);
    if block != [] && |all| >= target then Capture([], c.posted + [all]) else Capture(all, c.posted)
  }

  class PcmCaptureProcessor {
    var buf: seq<seq<int>>
    var count: nat
    var posted: seq<seq<int>>
    const target: nat

    ghost predicate Valid()
      reads this
    {
      count == |Concat(buf)| && count < target
    }

    ghost function Contents(): Capture
      reads this
    {
      Capture(Concat(buf), posted)
    }

    constructor (target: nat)
      requires target >= 1
      ensures Valid() && Contents() == Capture([], []) && this.target == target
    {
      this.target := target;
      buf, count, posted := [], 0, [];
    }

    method Process(ch: seq<real>)
      requires Valid()
      modifies this
      ensures Valid()
      ensures Contents() == Processed(old(Contents()), ch, target)
    {
      if |ch| == 0 {
        assert Quantised(ch) == [];
        assert Concat(buf) + [] == Concat(buf);
        return;
      }
      var out := new int[|ch|];
      for i := 0 to |ch|
        invariant unchanged(this)
        invariant out[..i] == Quantised(ch)[..i]
      {
        var s := ch[i];
        if s > 1.0 {
          s := 1.0;
        } else if s < -1.0 {
          s := -1.0;
        }
        out[i] := ToInt16(Truncate(if s < 0.0 then s * 32768.0 else s * 32767.0));
        assert out[i] == Quantised(ch)[i];
        assert out[..i + 1] == out[..i] + [out[i]];
      }
      var quantised := out[..];
      assert quantised == out[..|ch|] == Quantised(ch);
      ConcatSnoc(buf, quantised);
      buf := buf + [quantised];
      count := count + |quantised|;
      if count >= target {
        var merged := Merge(buf, count);
        posted := posted + [merged[..]];
        buf, count := [], 0;
      }
    }
  }

  /** Copies the blocks one behind the other into a new array. */
  method Merge(blocks: seq<seq<int>>, count: nat) returns (merged: array<int>)
    requires count == |Concat(blocks)|
    ensures fresh(merged) && merged[..] == Concat(blocks)
  {
    merged := new int[count];
    var o := 0;
    for k := 0 to |blocks|
      invariant o <= count && o == |Concat(blocks[..k])|
      invariant merged[..o] == Concat(blocks[..k])
    {
      TakeOneMore(blocks, k);
      ConcatSnoc(blocks[..k], blocks[k]);
      ConcatPrefix(blocks, k + 1);
      forall j | 0 <= j < |blocks[k]| {
        merged[o + j] := blocks[k][j];
      }
      assert merged[..o + |blocks[k]|] == merged[..o] + blocks[k];
      o := o + |blocks[k]|;
    }
    assert blocks[..|blocks|] == blocks;
  }

  lemma {:induction false} ConcatPrefix(blocks: seq<seq<int>>, k: nat)
    requires k <= |blocks|
    ensures |Concat(blocks[..k])| <= |Concat(blocks)|
  {
    if k == 0 {
    } else {
      assert blocks[..k][1..] == blocks[1..][..k - 1];
      ConcatPrefix(blocks[1..], k - 1);
    }
  }

  // ---- Runs --------------------------------------------------------------------------------------------

  function Run(blocks: seq<seq<real>>, target: nat): Capture {
    if blocks == [] then Capture([], [])
    else Processed(Run(blocks[..|blocks| - 1], target), blocks[|blocks| - 1], target)
  }

  /** Nothing is lost, repeated or reordered: what left and what is pending is the whole input. */
  lemma {:induction false} CaptureLosesNothing(blocks: seq<seq<real>>, target: nat)
    ensures var c := Run(blocks, target); Concat(c.posted) + c.pending == Quantised(Concat(blocks))
  {
    if blocks == [] {
    } else {
      var n := |blocks| - 1;
      var before, block := Run(blocks[..n], target), blocks[n];
      CaptureLosesNothing(blocks[..n], target);
      assert blocks == blocks[..n] + [block];
      ConcatSnoc(blocks[..n], block);
      MapConcat(s => Quantise(s), Concat(blocks[..n]), block);
      Reassociate(Concat(before.posted), before.pending, Quantised(block));
      ConcatSnoc(before.posted, before.pending + Quantised(block));
      var all := Concat(before.posted) + (before.pending + Quantised(block));
      assert all + [] == all;
    }
  }

  /** Between calls less than a chunk is pending. */
  lemma {:induction false} PendingIsShort(blocks: seq<seq<real>>, target: nat)
    requires target >= 1
    ensures |Run(blocks, target).pending| < target
  {
    if blocks == [] {
    } else {
      PendingIsShort(blocks[..|blocks| - 1], target);
      if blocks[|blocks| - 1] == [] {
        assert Quantised(blocks[|blocks| - 1]) == [];
      }
    }
  }

  /**
    A chunk leaves at the first block that completes it: it is at least the target long, and
    shorter than the target by its last block, so at most `target + size - 1` long for blocks of
    at most `size` samples.
   */
  lemma {:induction false} ChunkLengths(blocks: seq<seq<real>>, target: nat, size: nat, k: nat)
    requires target >= 1 && (forall i :: 0 <= i < |blocks| ==> |blocks[i]| <= size)
    requires k < |Run(blocks, target).posted|
    ensures target <= |Run(blocks, target).posted[k]| <= target + size - 1
  {
    if blocks == [] {
    } else {
      var n := |blocks| - 1;
      PendingIsShort(blocks[..n], target);
      if k < |Run(blocks[..n], target).posted| {
        ChunkLengths(blocks[..n], target, size, k);
      }
    }
  }
}
