/**
  client/public/pcm-playback-worklet.js: the jitter buffer that plays translated speech. Samples
  are reals, except that reading past the end of a frame gives `NaN`, as it does in JavaScript.
 */
module PcmPlayback {
  import opened Arithmetic
  import opened Sequences
  import opened Wrappers

  datatype Sample = Num(v: real) | NaN

  /** The constants that depend on the sample rate, and the decay factor per sample. */
  datatype Config = Config(prebuffer: nat, tailTimeout: nat, decay: real, silenceFloor: real)

  datatype Player = Player(
    queue: seq<seq<real>>, cur: Option<seq<real>>, pos: nat, queued: int,
    playing: bool, quiet: nat, tail: Sample, reported: bool, posted: seq<bool>)

  function Initial(): Player {
    Player([], None, 0, 0, false, 0, Num(0.0), false, [])
  }

  // ---- The handlers, as functions of the state -------------------------------------------------------

  function Reported(p: Player, playing: bool): Player {
    if p.reported == playing then p else p.(reported := playing, posted := p.posted + [playing])
  }

  function OnFrame(p: Player, frame: seq<real>): Player {
    p.(queue := p.queue + [frame], queued := p.queued + |frame|, quiet := 0)
  }

  function OnFlush(p: Player): Player {
    Reported(p.(queue := [], cur := None, pos := 0, queued := 0, playing := false), false)
  }

  /** One step of the decay toward silence. */
  function Faded(c: Config, tail: Sample): Sample {
    match tail
    case NaN => NaN
    case Num(v) =>
      var w := v * c.decay;
      if w < c.silenceFloor && w > -c.silenceFloor then Num(0.0) else Num(w)
  }

  function Silence(c: Config, tail: Sample, n: nat): seq<Sample>
    decreases n
  {
    if n == 0 then [] else [Faded(c, tail)] + Silence(c, Faded(c, tail), n - 1)
  }

  function TailAfter(c: Config, tail: Sample, n: nat): Sample
    decreases n
  {
    if n == 0 then tail else TailAfter(c, Faded(c, tail), n - 1)
  }

  /** Moves on to the next frame when the current one is used up. */
  function Refilled(p: Player): Player {
    if p.cur.Some? && p.pos < |p.cur.value| then p
    else if p.queue == [] then p.(cur := None, pos := 0)
    else p.(cur := Some(p.queue[0]), queue := p.queue[1..], pos := 0)
  }

  /** Takes the next sample of the current frame. */
  function Taken(p: Player): (Player, Sample)
    requires p.cur.Some?
  {
    var s := if p.pos < |p.cur.value| then Num(p.cur.value[p.pos]) else NaN;
    (p.(pos := p.pos + 1, queued := p.queued - 1, tail := s), s)
  }

  /** Plays up to `n` samples; an underrun stops the playing and leaves the rest to the decay. */
  function Played(p: Player, n: nat): (Player, seq<Sample>)
    decreases n
  {
    if n == 0 then (p, [])
    else
      var r := Refilled(p);
      if r.cur.None? then (r.(playing := false), [])
      else
        var (q, s) := Taken(r);
        var (last, more) := Played(q, n - 1);
        (last, [s] + more)
  }

  predicate Ready(c: Config, p: Player) {
    p.queued >= c.prebuffer || (p.queued > 0 && p.quiet >= c.tailTimeout)
  }

  /** The quantum is spent filling the cushion. */
  predicate IsFilling(c: Config, p: Player, n: nat) {
    !p.playing && !Ready(c, p.(quiet := p.quiet + n))
  }

  /** The player as it enters the sample loop. */
  function Started(p: Player, n: nat): Player {
    var q := p.(quiet := p.quiet + n);
    if q.playing then q else Reported(q.(playing := true), true)
  }

  /** The player after a quantum of filling: the end of speech may be reported. */
  function Waited(c: Config, p: Player, n: nat): Player {
    var q := p.(quiet := p.quiet + n);
    if q.queued == 0 && q.quiet >= c.tailTimeout then Reported(q, false) else q
  }

  /** One render quantum of `n` samples: the state afterwards, the samples played, and the fill. */
  function Rendered(c: Config, p: Player, n: nat): (Player, seq<Sample>, seq<Sample>) {
    if IsFilling(c, p, n) then
      var q := Waited(c, p, n);
      (q.(tail := TailAfter(c, q.tail, n)), [], Silence(c, q.tail, n))
    else
      var (q, played) := Played(Started(p, n), n);
      PlayedLength(Started(p, n), n);
      (q.(tail := TailAfter(c, q.tail, n - |played|)), played, Silence(c, q.tail, n - |played|))
  }

  lemma {:induction false} PlayedLength(p: Player, n: nat)
    ensures |Played(p, n).1| <= n
    decreases n
  {
    if n > 0 && Refilled(p).cur.Some? {
      PlayedLength(Taken(Refilled(p)).0, n - 1);
    }
  }

  // ---- The processor -------------------------------------------------------------------------------------

  class PcmPlaybackProcessor {
    const config: Config
    var queue: seq<seq<real>>
    var cur: Option<seq<real>>
    var pos: nat
    var queued: int
    var playing: bool
    var quiet: nat
    var tail: Sample
    var reported: bool
    var posted: seq<bool>

    ghost function Contents(): Player
      reads this
    {
      Player(queue, cur, pos, queued, playing, quiet, tail, reported, posted)
    }

    constructor (config: Config)
      ensures Contents() == Initial() && this.config == config
    {
      this.config := config;
      queue, cur, pos, queued, playing := [], None, 0, 0, false;
      quiet, tail, reported, posted := 0, Num(0.0), false, [];
    }

    method OnMessage(frame: Option<seq<real>>)
      modifies this
      ensures Contents() == match frame case Some(f) => OnFrame(old(Contents()), f) case None => OnFlush(old(Contents()))
    {
      match frame {
        case None =>
          queue, cur, pos, queued, playing := [], None, 0, 0, false;
          Report(false);
        case Some(f) =>
          queue := queue + [f];
          queued := queued + |f|;
          quiet := 0;
      }
    }

    /** Posts an edge once per transition. */
    method Report(edge: bool)
      modifies this`reported, this`posted
      ensures Contents() == Reported(old(Contents()), edge)
    {
      if reported != edge {
        reported := edge;
        posted := posted + [edge];
      }
    }

    /** Fills `out` from `start` with the decaying remains of the last sample played. */
    method FillSilence(out: array<Sample>, start: nat)
      requires start <= out.Length
      modifies this`tail, out
      ensures out[..] == old(out[..start]) + Silence(config, old(tail), out.Length - start)
      ensures tail == TailAfter(config, old(tail), out.Length - start)
    {
      ghost var all := Silence(config, tail, out.Length - start);
      SilenceLength(config, tail, out.Length - start);
      assert all == out[start..start] + all;
      for i := start to out.Length
        invariant out[..start] == old(out[..start])
        invariant all == out[start..i] + Silence(config, tail, out.Length - i)
        invariant TailAfter(config, tail, out.Length - i) == TailAfter(config, old(tail), out.Length - start)
      {
        tail := Faded(config, tail);
        Reassociate(out[start..i], [tail], Silence(config, tail, out.Length - i - 1));
        out[i] := tail;
        assert out[start..i + 1] == out[start..i] + [tail];
      }
      assert out[..] == out[..start] + out[start..];
      assert out[start..] == out[start..out.Length];
      assert all == out[start..out.Length] + [];
    }

    method Process(out: array?<Sample>)
      modifies this, if out == null then {} else {out}
      ensures out == null ==> Contents() == old(Contents())
      ensures out != null ==>
        var (after, played, fill) := Rendered(config, old(Contents()), out.Length);
        Contents() == after && out[..] == played + fill
    {
      if out == null {
        return;
      }
      quiet := quiet + out.Length;
      if !playing {
        var ready := queued >= config.prebuffer || (queued > 0 && quiet >= config.tailTimeout);
        if !ready {
          if queued == 0 && quiet >= config.tailTimeout {
            Report(false);
          }
          FillSilence(out, 0);
          return;
        }
        playing := true;
        Report(true);
      }
      PlayInto(out);
    }

    /** Moves on to the next frame when the current one is used up. */
    method Refill()
      modifies this
      ensures Contents() == Refilled(old(Contents()))
    {
      if cur.None? || pos >= |cur.value| {
        if queue == [] {
          cur := None;
        } else {
          cur, queue := Some(queue[0]), queue[1..];
        }
        pos := 0;
      }
    }

    /** Takes the next sample of the current frame. */
    method Take()
      requires cur.Some?
      modifies this
      ensures (Contents(), tail) == Taken(old(Contents()))
    {
      tail := if pos < |cur.value| then Num(cur.value[pos]) else NaN;
      pos := pos + 1;
      queued := queued - 1;
    }

    /** The sample loop: plays until the buffer is full, or decays from the underrun on. */
    method PlayInto(out: array<Sample>)
      modifies this, out
      ensures var (q, played) := Played(old(Contents()), out.Length);
        && |played| <= out.Length
        && Contents() == q.(tail := TailAfter(config, q.tail, out.Length - |played|))
        && out[..] == played + Silence(config, q.tail, out.Length - |played|)
    {
      ghost var begun := Contents();
      PlayedLength(begun, out.Length);
      assert out[..0] + Played(begun, out.Length).1 == Played(begun, out.Length).1;
      for i := 0 to out.Length
        invariant Played(begun, out.Length).0 == Played(Contents(), out.Length - i).0
        invariant Played(begun, out.Length).1 == out[..i] + Played(Contents(), out.Length - i).1
      {
        ghost var left := out.Length - i;
        PlayedStep(Contents(), left);
        Refill();
        if cur.None? {
          playing := false;
          assert out[..i] + [] == out[..i];
          FillSilence(out, i);
          return;
        }
        Take();
        Reassociate(out[..i], [tail], Played(Contents(), left - 1).1);
        out[i] := tail;
        assert out[..i + 1] == out[..i] + [tail];
      }
      assert out[..out.Length] + [] == out[..];
    }
  }

  lemma PlayedStep(p: Player, n: nat)
    requires n > 0
    ensures var r := Refilled(p);
      if r.cur.None? then Played(p, n) == (r.(playing := false), [])
      else Played(p, n) == (Played(Taken(r).0, n - 1).0, [Taken(r).1] + Played(Taken(r).0, n - 1).1)
  {
  }

  lemma {:induction false} SilenceLength(c: Config, tail: Sample, n: nat)
    ensures |Silence(c, tail, n)| == n
    decreases n
  {
    if n == 0 {
    } else {
      SilenceLength(c, Faded(c, tail), n - 1);
    }
  }

  /** The factor after `k` samples of decay. */
  function Decay(d: real, k: nat): (r: real)
    requires 0.0 <= d <= 1.0
    ensures 0.0 <= r <= 1.0
  {
    if k == 0 then 1.0 else
      var r := Decay(d, k - 1);
      ShrinkPositive(d, r, d * r);
      d * r
  }

  /** A value whose size is below the floor is silence. */
  function Floored(c: Config, v: real): real {
    if -c.silenceFloor < v < c.silenceFloor then 0.0 else v
  }

  lemma StaysBelow(floor: real, w: real, r: real, t: real)
    requires 0.0 <= r <= 1.0 && -floor < w < floor && t == w * r
    ensures -floor < t < floor
  {
    if w >= 0.0 {
      ShrinkPositive(w, r, t);
    } else {
      ShrinkNegative(w, r, t);
    }
  }

  lemma DecayStep(v: real, d: real, k: nat)
    requires 0.0 <= d <= 1.0
    ensures v * Decay(d, k + 1) == (v * d) * Decay(d, k)
  {
    var r := Decay(d, k);
    assert v * (d * r) == (v * d) * r;
  }

  /** Cutting to zero early makes no difference to what is cut later. */
  lemma FloorThenDecay(c: Config, u: real, w: real, r: real, t: real)
    requires 0.0 <= r <= 1.0 && w == Floored(c, u) && t == u * r
    ensures Floored(c, w * r) == Floored(c, t)
  {
    if -c.silenceFloor < u < c.silenceFloor {
      StaysBelow(c.silenceFloor, u, r, t);
      assert 0.0 * r == 0.0;
    }
  }

  lemma FadeThenDecay(c: Config, v: real, w: real, r: real, s: real)
    requires 0.0 <= r <= 1.0 && Faded(c, Num(v)) == Num(w) && s == c.decay * r
    ensures Floored(c, w * r) == Floored(c, v * s)
  {
    assert v * s == (v * c.decay) * r;
    FloorThenDecay(c, v * c.decay, w, r, v * s);
  }

  lemma FadedNumber(c: Config, v: real) returns (w: real)
    ensures Faded(c, Num(v)) == Num(w)
  {
    w := Floored(c, v * c.decay);
  }

  lemma FillStep(c: Config, tail: Sample, n: nat, k: nat)
    requires k < n
    ensures |Silence(c, tail, n)| == n && |Silence(c, Faded(c, tail), n - 1)| == n - 1
    ensures Silence(c, tail, n)[k] == if k == 0 then Faded(c, tail) else Silence(c, Faded(c, tail), n - 1)[k - 1]
  {
    SilenceLength(c, tail, n);
    SilenceLength(c, Faded(c, tail), n - 1);
  }

  /** Sample `k` of the fill after the last sample `v`: `v` times the decay so far, cut to zero below the floor. */
  function FillAt(c: Config, v: real, k: nat): real
    requires 0.0 <= c.decay <= 1.0
  {
    Floored(c, v * Decay(c.decay, k + 1))
  }

  lemma FillAtStart(c: Config, v: real)
    requires 0.0 <= c.decay <= 1.0
    ensures Faded(c, Num(v)) == Num(FillAt(c, v, 0))
  {
    DecayStep(v, c.decay, 0);
  }

  lemma FillAtStep(c: Config, v: real, w: real, k: nat)
    requires 0.0 <= c.decay <= 1.0 && Faded(c, Num(v)) == Num(w)
    ensures FillAt(c, w, k) == FillAt(c, v, k + 1)
  {
    FadeThenDecay(c, v, w, Decay(c.decay, k + 1), Decay(c.decay, k + 2));
  }

  /** The fill never grows, never changes sign, and once silent stays silent. */
  lemma {:induction false} SilenceDecays(c: Config, v: real, n: nat, k: nat)
    requires 0.0 <= c.decay <= 1.0 && k < n
    ensures |Silence(c, Num(v), n)| == n && Silence(c, Num(v), n)[k] == Num(FillAt(c, v, k))
    decreases n
  {
    FillStep(c, Num(v), n, k);
    if k == 0 {
      FillAtStart(c, v);
    } else {
      var w := FadedNumber(c, v);
      FillAtStep(c, v, w, k - 1);
      SilenceDecays(c, w, n - 1, k - 1);
    }
  }

  // ---- The queue counts what it holds ------------------------------------------------------------------

  /** The samples received and not played yet, in order. */
  function Unplayed(p: Player): seq<real> {
    (if p.cur.Some? && p.pos <= |p.cur.value| then p.cur.value[p.pos..] else []) + Concat(p.queue)
  }

  ghost predicate InSync(p: Player) {
    (p.cur.Some? ==> p.pos <= |p.cur.value|) && p.queued == |Unplayed(p)|
  }

  predicate NoEmptyFrame(p: Player) {
    forall k :: 0 <= k < |p.queue| ==> p.queue[k] != []
  }

  predicate NeedsRefill(p: Player) {
    p.cur.None? || p.pos >= |p.cur.value|
  }

  lemma RefillKeeps(p: Player)
    requires InSync(p)
    ensures InSync(Refilled(p)) && Unplayed(Refilled(p)) == Unplayed(p)
    ensures NoEmptyFrame(p) ==> NoEmptyFrame(Refilled(p))
  {
    if NeedsRefill(p) {
      assert Unplayed(p) == [] + Concat(p.queue);
      if p.queue != [] {
        assert p.queue[0][0..] == p.queue[0];
      }
    }
  }

  /**
    Taking a sample keeps the count right if and only if the frame it starts on is not empty:
    the refill moves on by one frame only.
   */
  lemma TakeKeepsSyncExactlyWhen(p: Player)
    requires InSync(p) && Refilled(p).cur.Some?
    ensures InSync(Taken(Refilled(p)).0) <==> !StartsEmpty(p)
  {
    RefillKeeps(p);
    var r := Refilled(p);
    if r.pos < |r.cur.value| {
      TakeOne(r);
    }
  }

  lemma TakeOne(r: Player)
    requires InSync(r) && r.cur.Some? && r.pos < |r.cur.value|
    ensures var (q, s) := Taken(r); InSync(q) && Unplayed(r) == [r.cur.value[r.pos]] + Unplayed(q) && s == Num(r.cur.value[r.pos])
  {
    var f := r.cur.value;
    assert f[r.pos..] == [f[r.pos]] + f[r.pos + 1..];
    Reassociate([f[r.pos]], f[r.pos + 1..], Concat(r.queue));
  }

  function AsSamples(x: seq<real>): seq<Sample> {
    Map(v => Num(v), x)
  }

  function Least(a: nat, b: nat): nat {
    if a <= b then a else b
  }

  /** `q` is `p` after its first `m` unplayed samples have been played as `played`. */
  ghost predicate HasPlayed(p: Player, q: Player, played: seq<Sample>, m: nat) {
    && m <= |Unplayed(p)| && InSync(q)
    && Unplayed(q) == Unplayed(p)[m..] && played == AsSamples(Unplayed(p)[..m])
    && q.quiet == p.quiet && q.reported == p.reported && q.posted == p.posted
  }

  /** The next sample would come from an empty frame. */
  predicate StartsEmpty(p: Player)
    requires Refilled(p).cur.Some?
  {
    NeedsRefill(p) && p.queue[0] == []
  }

  /** Playing `n` samples reaches an empty frame. */
  predicate HitsEmpty(p: Player, n: nat)
    decreases n
  {
    n > 0 && Refilled(p).cur.Some? && (StartsEmpty(p) || HitsEmpty(Taken(Refilled(p)).0, n - 1))
  }

  lemma PlaysNothing(p: Player, n: nat)
    requires InSync(p) && n > 0 && Refilled(p).cur.None?
    ensures HasPlayed(p, Played(p, n).0, Played(p, n).1, 0)
    ensures !Played(p, n).0.playing && |Unplayed(p)| == 0
  {
    PlayedStep(p, n);
    RefillKeeps(p);
    NothingQueued(p);
    assert Unplayed(Refilled(p).(playing := false)) == Unplayed(p)[0..];
  }

  /** What is left to play after the next sample. */
  lemma NextPlayer(p: Player, n: nat) returns (q: Player)
    requires InSync(p) && p.playing && n > 0 && Refilled(p).cur.Some? && !StartsEmpty(p)
    ensures q == Taken(Refilled(p)).0 && InSync(q) && q.playing
    ensures |Unplayed(q)| == |Unplayed(p)| - 1
    ensures Played(p, n).0 == Played(q, n - 1).0
    ensures Played(p, n).1 == [Taken(Refilled(p)).1] + Played(q, n - 1).1
    ensures forall last: Player, more: seq<Sample>, m: nat :: HasPlayed(q, last, more, m) ==>
      HasPlayed(p, last, [Taken(Refilled(p)).1] + more, m + 1)
  {
    PlayedStep(p, n);
    RefillKeeps(p);
    var r := Refilled(p);
    TakeOne(r);
    q := Taken(r).0;
    forall last: Player, more: seq<Sample>, m: nat | HasPlayed(q, last, more, m)
      ensures HasPlayed(p, last, [Taken(r).1] + more, m + 1)
    {
      OneMorePlayed(p, r, last, more, m);
    }
  }

  /**
    What playing does when it reaches no empty frame: it plays the first samples that are queued, in
    order, and stops exactly when there are too few.
   */
  lemma {:induction false} PlaysInOrder(p: Player, n: nat)
    requires InSync(p) && !HitsEmpty(p, n) && p.playing
    ensures HasPlayed(p, Played(p, n).0, Played(p, n).1, Least(n, |Unplayed(p)|))
    ensures Played(p, n).0.playing <==> n <= |Unplayed(p)|
    decreases n
  {
    if n == 0 {
      assert Unplayed(p)[0..] == Unplayed(p);
    } else if Refilled(p).cur.None? {
      PlaysNothing(p, n);
    } else {
      var q := NextPlayer(p, n);
      PlaysInOrder(q, n - 1);
      assert HasPlayed(q, Played(q, n - 1).0, Played(q, n - 1).1, Least(n - 1, |Unplayed(q)|));
    }
  }

  /** Without empty frames none is reached. */
  lemma {:induction false} NeverHits(p: Player, n: nat)
    requires NoEmptyFrame(p)
    ensures !HitsEmpty(p, n) && NoEmptyFrame(Played(p, n).0)
    decreases n
  {
    if n == 0 {
    } else {
      PlayedStep(p, n);
      assert NoEmptyFrame(Refilled(p));
      if Refilled(p).cur.Some? {
        NeverHits(Taken(Refilled(p)).0, n - 1);
      }
    }
  }

  /** Less is counted than is queued. */
  ghost predicate Behind(p: Player) {
    p.queued < |Unplayed(p)|
  }

  lemma RefillUnplayed(p: Player)
    ensures Unplayed(Refilled(p)) == Unplayed(p)
    ensures Refilled(p).queued == p.queued
  {
    if NeedsRefill(p) {
      assert Unplayed(p) == [] + Concat(p.queue);
      if p.queue != [] {
        assert p.queue[0][0..] == p.queue[0];
      }
    }
  }

  lemma TakeUnplayed(r: Player)
    requires r.cur.Some?
    ensures |Unplayed(Taken(r).0)| == |Unplayed(r)| - (if r.pos < |r.cur.value| then 1 else 0)
  {
    var f := r.cur.value;
    if r.pos < |f| {
      assert f[r.pos..] == [f[r.pos]] + f[r.pos + 1..];
    } else {
      assert r.pos == |f| ==> f[r.pos..] == [];
    }
  }

  /** A count that has fallen behind stays behind. */
  lemma {:induction false} BehindStays(p: Player, n: nat)
    requires Behind(p)
    ensures Behind(Played(p, n).0)
    decreases n
  {
    if n == 0 {
    } else {
      PlayedStep(p, n);
      RefillUnplayed(p);
      var r := Refilled(p);
      if r.cur.Some? {
        TakeUnplayed(r);
        BehindStays(Taken(r).0, n - 1);
      } else {
        SameQueue(r, r.(playing := false));
      }
    }
  }

  /** Reaching an empty frame leaves the count behind. */
  lemma {:induction false} HitFallsBehind(p: Player, n: nat)
    requires InSync(p) && HitsEmpty(p, n)
    ensures Behind(Played(p, n).0)
    decreases n
  {
    PlayedStep(p, n);
    RefillUnplayed(p);
    RefillKeeps(p);
    var r := Refilled(p);
    TakeUnplayed(r);
    if StartsEmpty(p) {
      BehindStays(Taken(r).0, n - 1);
    } else {
      TakeOne(r);
      HitFallsBehind(Taken(r).0, n - 1);
    }
  }

  lemma OneMorePlayed(p: Player, r: Player, last: Player, more: seq<Sample>, m: nat)
    requires r == Refilled(p) && InSync(r) && Unplayed(r) == Unplayed(p) && r.cur.Some? && r.pos < |r.cur.value|
    requires HasPlayed(Taken(r).0, last, more, m)
    ensures HasPlayed(p, last, [Taken(r).1] + more, m + 1)
  {
    TakeOne(r);
    ShiftedPrefix(Unplayed(p), Unplayed(Taken(r).0), m);
  }

  lemma NothingQueued(p: Player)
    requires InSync(p) && Refilled(p).cur.None?
    ensures Unplayed(p) == [] && Unplayed(Refilled(p)) == []
  {
    RefillKeeps(p);
  }

  lemma ShiftedPrefix(u: seq<real>, v: seq<real>, m: nat)
    requires |u| == |v| + 1 && u == [u[0]] + v && m <= |v|
    ensures v[m..] == u[m + 1..] && AsSamples(u[..m + 1]) == [Num(u[0])] + AsSamples(v[..m])
  {
  }

  // ---- Runs ----------------------------------------------------------------------------------------------

  datatype Event = Frame(samples: seq<real>) | Flush | Quantum(n: nat)

  /** The state, and since the last flush: the samples received and the samples played. */
  datatype Trace = Trace(player: Player, received: seq<real>, played: seq<Sample>)

  function Next(c: Config, t: Trace, e: Event): Trace {
    match e
    case Frame(f) => Trace(OnFrame(t.player, f), t.received + f, t.played)
    case Flush => Trace(OnFlush(t.player), [], [])
    case Quantum(n) =>
      var (q, played, _) := Rendered(c, t.player, n);
      Trace(q, t.received, t.played + played)
  }

  function Run(c: Config, events: seq<Event>): Trace {
    if events == [] then Trace(Initial(), [], [])
    else Next(c, Run(c, events[..|events| - 1]), events[|events| - 1])
  }

  lemma SameQueue(p: Player, q: Player)
    requires q.queue == p.queue && q.cur == p.cur && q.pos == p.pos && q.queued == p.queued
    ensures Unplayed(q) == Unplayed(p) && (InSync(q) <==> InSync(p)) && (NoEmptyFrame(q) <==> NoEmptyFrame(p))
  {
  }

  /** The quantum plays, and reaches an empty frame. */
  predicate QuantumHits(c: Config, p: Player, n: nat) {
    !IsFilling(c, p, n) && HitsEmpty(Started(p, n), n)
  }

  /** What one quantum does to a player whose queue is in order, if it reaches no empty frame. */
  lemma QuantumKeeps(c: Config, p: Player, n: nat)
    requires InSync(p) && !QuantumHits(c, p, n)
    ensures InSync(Rendered(c, p, n).0)
    ensures AsSamples(Unplayed(p)) == Rendered(c, p, n).1 + AsSamples(Unplayed(Rendered(c, p, n).0))
  {
    var (q, played, _) := Rendered(c, p, n);
    if IsFilling(c, p, n) {
      SameQueue(p, q);
      assert [] + AsSamples(Unplayed(p)) == AsSamples(Unplayed(p));
    } else {
      var start := Started(p, n);
      SameQueue(p, start);
      PlaysInOrder(start, n);
      SameQueue(Played(start, n).0, q);
      SplitSamples(Unplayed(p), Least(n, |Unplayed(p)|));
    }
  }

  lemma QuantumNeverHits(c: Config, p: Player, n: nat)
    requires NoEmptyFrame(p)
    ensures !QuantumHits(c, p, n) && NoEmptyFrame(Rendered(c, p, n).0)
  {
    if IsFilling(c, p, n) {
      SameQueue(p, Rendered(c, p, n).0);
    } else {
      SameQueue(p, Started(p, n));
      NeverHits(Started(p, n), n);
      SameQueue(Played(Started(p, n), n).0, Rendered(c, p, n).0);
    }
  }

  /** A quantum keeps the count right exactly when it reaches no empty frame. */
  lemma QuantumInSyncExactlyWhen(c: Config, p: Player, n: nat)
    requires InSync(p)
    ensures InSync(Rendered(c, p, n).0) <==> !QuantumHits(c, p, n)
  {
    if QuantumHits(c, p, n) {
      SameQueue(p, Started(p, n));
      HitFallsBehind(Started(p, n), n);
      SameQueue(Played(Started(p, n), n).0, Rendered(c, p, n).0);
    } else {
      QuantumKeeps(c, p, n);
    }
  }

  lemma SplitSamples(u: seq<real>, m: nat)
    requires m <= |u|
    ensures AsSamples(u) == AsSamples(u[..m]) + AsSamples(u[m..])
  {
  }

  lemma FrameKeeps(p: Player, f: seq<real>)
    requires InSync(p)
    ensures InSync(OnFrame(p, f)) && Unplayed(OnFrame(p, f)) == Unplayed(p) + f
    ensures NoEmptyFrame(p) && f != [] ==> NoEmptyFrame(OnFrame(p, f))
  {
    ConcatSnoc(p.queue, f);
    var head := if p.cur.Some? && p.pos <= |p.cur.value| then p.cur.value[p.pos..] else [];
    Reassociate(head, Concat(p.queue), f);
  }

  /** No quantum of the run reaches an empty frame; frames that are flushed first do no harm. */
  ghost predicate Smooth(c: Config, events: seq<Event>) {
    forall i :: 0 <= i < |events| ==> SmoothAt(c, events, i)
  }

  predicate SmoothAt(c: Config, events: seq<Event>, i: nat)
    requires i < |events|
  {
    events[i].Quantum? ==> !QuantumHits(c, Run(c, events[..i]).player, events[i].n)
  }

  lemma SmoothBefore(c: Config, events: seq<Event>, k: nat)
    requires Smooth(c, events) && k <= |events|
    ensures Smooth(c, events[..k])
  {
    forall i | 0 <= i < k ensures SmoothAt(c, events[..k], i) {
      assert events[..k][..i] == events[..i];
      assert SmoothAt(c, events, i);
    }
  }

  /**
    First in, first out, over any run whose quanta reach no empty frame: the count is the number of
    unplayed samples, and what was played since the last flush followed by what is unplayed is what
    was received since then, in order, across every underrun and rebuffering.
   */
  lemma {:induction false} PlaybackLosesNothing(c: Config, events: seq<Event>)
    requires Smooth(c, events)
    ensures InSync(Run(c, events).player)
    ensures var t := Run(c, events); t.played + AsSamples(Unplayed(t.player)) == AsSamples(t.received)
  {
    if events == [] {
      assert Unplayed(Initial()) == [];
    } else {
      var k := |events| - 1;
      var t := Run(c, events[..k]);
      SmoothBefore(c, events, k);
      PlaybackLosesNothing(c, events[..k]);
      match events[k] {
        case Frame(f) =>
          FrameKeeps(t.player, f);
          MapConcat(v => Num(v), Unplayed(t.player), f);
          MapConcat(v => Num(v), t.received, f);
          Reassociate(t.played, AsSamples(Unplayed(t.player)), AsSamples(f));
        case Flush =>
          assert Unplayed(OnFlush(t.player)) == [];
        case Quantum(n) =>
          assert SmoothAt(c, events, k);
          QuantumKeeps(c, t.player, n);
          var (q, played, _) := Rendered(c, t.player, n);
          Reassociate(t.played, played, AsSamples(Unplayed(q)));
      }
    }
  }

  ghost predicate InSyncAt(c: Config, events: seq<Event>, k: nat)
    requires k <= |events|
  {
    InSync(Run(c, events[..k]).player)
  }

  lemma NextInSyncAt(c: Config, events: seq<Event>, i: nat)
    requires i < |events| && InSyncAt(c, events, i) && !SmoothAt(c, events, i)
    ensures !InSyncAt(c, events, i + 1)
  {
    QuantumInSyncExactlyWhen(c, Run(c, events[..i]).player, events[i].n);
    assert events[..i + 1][..i] == events[..i];
  }

  /** The count is right at every moment of a run exactly when no quantum reaches an empty frame. */
  lemma AlwaysInSyncExactlyWhen(c: Config, events: seq<Event>)
    ensures (forall k :: 0 <= k <= |events| ==> InSyncAt(c, events, k)) <==> Smooth(c, events)
  {
    if Smooth(c, events) {
      forall k | 0 <= k <= |events| ensures InSyncAt(c, events, k) {
        SmoothBefore(c, events, k);
        PlaybackLosesNothing(c, events[..k]);
      }
    } else {
      var i :| 0 <= i < |events| && !SmoothAt(c, events, i);
      if InSyncAt(c, events, i) {
        NextInSyncAt(c, events, i);
      }
    }
  }

  predicate NoneEmpty(events: seq<Event>) {
    forall i :: 0 <= i < |events| && events[i].Frame? ==> events[i].samples != []
  }

  lemma SmoothMore(c: Config, events: seq<Event>, k: nat)
    requires |events| == k + 1 && Smooth(c, events[..k]) && SmoothAt(c, events, k)
    ensures Smooth(c, events)
  {
    forall i | 0 <= i < |events| ensures SmoothAt(c, events, i) {
      if i < k {
        assert events[..k][..i] == events[..i];
        assert SmoothAt(c, events[..k], i);
      }
    }
  }

  /** Runs that receive no empty frame are among these. */
  lemma {:induction false} NoneEmptyIsSmooth(c: Config, events: seq<Event>)
    requires NoneEmpty(events)
    ensures Smooth(c, events) && NoEmptyFrame(Run(c, events).player)
  {
    if events == [] {
    } else {
      var k := |events| - 1;
      NoneEmptyIsSmooth(c, events[..k]);
      if events[k].Quantum? {
        QuantumNeverHits(c, Run(c, events[..k]).player, events[k].n);
      }
      SmoothMore(c, events, k);
    }
  }

  // ---- One empty frame in the queue --------------------------------------------------------------------

  function Reacted(c: Config, p: Player, e: Event): Player {
    match e
    case Frame(f) => OnFrame(p, f)
    case Flush => OnFlush(p)
    case Quantum(n) => Rendered(c, p, n).0
  }

  function Onward(c: Config, p: Player, events: seq<Event>): Player {
    if events == [] then p else Reacted(c, Onward(c, p, events[..|events| - 1]), events[|events| - 1])
  }

  /** Whatever comes next, as long as it is no further empty frame, keeps the count right. */
  ghost predicate StaysInSync(c: Config, p: Player) {
    forall events :: NoneEmpty(events) ==> InSync(Onward(c, p, events))
  }

  /** Playing everything that is queued, and one sample more, reaches an empty frame if there is one. */
  lemma {:induction false} DrainingHits(p: Player, n: nat)
    requires InSync(p) && !NoEmptyFrame(p) && n > |Unplayed(p)|
    ensures HitsEmpty(p, n)
    decreases n
  {
    RefillKeeps(p);
    var r := Refilled(p);
    if !StartsEmpty(p) {
      TakeOne(r);
      var q := Taken(r).0;
      var k :| 0 <= k < |p.queue| && p.queue[k] == [];
      assert NeedsRefill(p) ==> q.queue[k - 1] == [];
      assert !NeedsRefill(p) ==> q.queue[k] == [];
      DrainingHits(q, n - 1);
    }
  }

  lemma {:induction false} OnwardKeeps(c: Config, p: Player, events: seq<Event>)
    requires InSync(p) && NoEmptyFrame(p) && NoneEmpty(events)
    ensures InSync(Onward(c, p, events)) && NoEmptyFrame(Onward(c, p, events))
  {
    if events == [] {
    } else {
      var k := |events| - 1;
      var q := Onward(c, p, events[..k]);
      OnwardKeeps(c, p, events[..k]);
      match events[k] {
        case Frame(f) => FrameKeeps(q, f);
        case Flush => assert Unplayed(OnFlush(q)) == [];
        case Quantum(n) =>
          QuantumNeverHits(c, q, n);
          QuantumKeeps(c, q, n);
      }
    }
  }

  /** The count can be trusted from now on exactly when no empty frame is queued. */
  lemma StaysInSyncExactlyWhen(c: Config, p: Player)
    requires InSync(p) && c.prebuffer >= 1
    ensures StaysInSync(c, p) <==> NoEmptyFrame(p)
  {
    if NoEmptyFrame(p) {
      forall events | NoneEmpty(events) ensures InSync(Onward(c, p, events)) {
        OnwardKeeps(c, p, events);
      }
    } else {
      var f := seq(c.prebuffer, _ => 0.0);
      var q := OnFrame(p, f);
      var n := |Unplayed(q)| + 1;
      var events := [Frame(f), Quantum(n)];
      FrameKeeps(p, f);
      var k :| 0 <= k < |p.queue| && p.queue[k] == [];
      assert q.queue[k] == [];
      SameQueue(q, Started(q, n));
      DrainingHits(Started(q, n), n);
      QuantumInSyncExactlyWhen(c, q, n);
      assert events[..1] == [Frame(f)] && events[..1][..0] == [];
      assert Onward(c, p, [Frame(f)]) == q by { assert [Frame(f)][..0] == []; }
      assert Onward(c, p, events) == Rendered(c, q, n).0;
    }
  }

  /**
    A run that goes wrong: behind an empty frame, the first sample played is not a number, and the count
    is one short of what is queued.
   */
  lemma EmptyFrameLosesCount(c: Config, f: seq<real>)
    requires f != [] && |f| >= c.prebuffer
    ensures var t := Run(c, [Frame([]), Frame(f), Quantum(1)]);
      t.played == [NaN] && Unplayed(t.player) == f && t.player.queued == |f| - 1 && !InSync(t.player)
  {
    var events := [Frame([]), Frame(f), Quantum(1)];
    var e1, e2 := events[..1], events[..2];
    assert e2[..1] == e1 && e1[..0] == [];
    var p := OnFrame(OnFrame(Initial(), []), f);
    assert Run(c, e1).player == OnFrame(Initial(), []) && Run(c, e1).played == [];
    assert Run(c, e2).player == p && Run(c, e2).played == [];
    BehindEmpty(c, p, f);
    assert [] + [NaN] == [NaN];
  }

  lemma BehindEmpty(c: Config, p: Player, f: seq<real>)
    requires f != [] && |f| >= c.prebuffer && p == OnFrame(OnFrame(Initial(), []), f)
    ensures var (q, played, _) := Rendered(c, p, 1);
      played == [NaN] && Unplayed(q) == f && q.queued == |f| - 1
  {
    var start := Started(p, 1);
    assert p.queue == [[], f] && p.queue[1..] == [f];
    var q := Taken(Refilled(start)).0;
    assert Played(q, 0) == (q, []);
    PlayedStep(start, 1);
    assert Played(start, 1) == (q, [NaN] + []);
    assert [f][1..] == [];
    assert Concat([f]) == f + [];
  }

  // ---- The microphone gate -------------------------------------------------------------------------------

  /** Edges alternate starting with `true`, the last one is remembered, and playing has been reported. */
  ghost predicate EdgesInOrder(p: Player) {
    && (forall k :: 0 <= k < |p.posted| ==> (p.posted[k] <==> k % 2 == 0))
    && (p.reported <==> |p.posted| % 2 == 1)
    && (p.playing ==> p.reported)
  }

  /** Playing touches neither the edges nor the clock. */
  lemma {:induction false} PlayedIsQuietAboutEdges(p: Player, n: nat)
    ensures var q := Played(p, n).0;
      q.reported == p.reported && q.posted == p.posted && q.quiet == p.quiet && (q.playing ==> p.playing)
    decreases n
  {
    if n == 0 {
    } else {
      PlayedStep(p, n);
      if Refilled(p).cur.Some? {
        PlayedIsQuietAboutEdges(Taken(Refilled(p)).0, n - 1);
      }
    }
  }

  lemma ReportKeepsOrder(p: Player, edge: bool)
    requires EdgesInOrder(p.(playing := false)) && (p.playing ==> p.reported || edge)
    requires p.playing ==> edge
    ensures EdgesInOrder(Reported(p, edge)) && Reported(p, edge).reported == edge
  {
  }

  /** Whether an event after a history puts real samples on the speaker. */
  predicate PlaysSomething(c: Config, history: seq<Event>, e: Event) {
    e.Quantum? && Rendered(c, Run(c, history).player, e.n).1 != []
  }

  /** Over any run the posted edges alternate, and every sample is played under a `true` edge. */
  lemma {:induction false} EdgesAlternate(c: Config, events: seq<Event>)
    ensures EdgesInOrder(Run(c, events).player)
    ensures events != [] && PlaysSomething(c, events[..|events| - 1], events[|events| - 1]) ==> Run(c, events).player.reported
  {
    if events == [] {
    } else {
      var k := |events| - 1;
      var p := Run(c, events[..k]).player;
      EdgesAlternate(c, events[..k]);
      match events[k] {
        case Frame(f) =>
        case Flush => ReportKeepsOrder(p.(queue := [], cur := None, pos := 0, queued := 0, playing := false), false);
        case Quantum(n) => QuantumEdges(c, p, n);
      }
    }
  }

  lemma QuantumEdges(c: Config, p: Player, n: nat)
    requires EdgesInOrder(p)
    ensures EdgesInOrder(Rendered(c, p, n).0)
    ensures Rendered(c, p, n).1 != [] ==> Rendered(c, p, n).0.reported
  {
    var q := p.(quiet := p.quiet + n);
    if IsFilling(c, p, n) {
      ReportKeepsOrder(q, false);
    } else {
      ReportKeepsOrder(q.(playing := true), true);
      PlayedIsQuietAboutEdges(Started(p, n), n);
    }
  }

  /** The samples rendered since the last frame arrived. */
  function QuietSince(events: seq<Event>): nat {
    if events == [] then 0
    else
      match events[|events| - 1]
      case Frame(_) => 0
      case Flush => QuietSince(events[..|events| - 1])
      case Quantum(n) => QuietSince(events[..|events| - 1]) + n
  }

  lemma {:induction false} QuietIsMeasured(c: Config, events: seq<Event>)
    ensures Run(c, events).player.quiet == QuietSince(events)
  {
    if events == [] {
    } else {
      var k := |events| - 1;
      QuietIsMeasured(c, events[..k]);
      if events[k].Quantum? {
        PlayedIsQuietAboutEdges(Started(Run(c, events[..k]).player, events[k].n), events[k].n);
      }
    }
  }

  /**
    A quantum un-gates the microphone only at the end of speech: everything received has been
    played, nothing is being played, and nothing has arrived for the length of the tail timeout.
   */
  lemma FalseEdgeMeansEndOfSpeech(c: Config, events: seq<Event>, n: nat)
    requires Smooth(c, events)
    requires var before, after := Run(c, events).player, Run(c, events + [Quantum(n)]).player;
      before.reported && !after.reported
    ensures var t := Run(c, events); t.played == AsSamples(t.received) && !t.player.playing
    ensures QuietSince(events) + n >= c.tailTimeout
  {
    var p := Run(c, events).player;
    assert (events + [Quantum(n)])[..|events|] == events;
    PlaybackLosesNothing(c, events);
    QuietIsMeasured(c, events);
    PlayedIsQuietAboutEdges(Started(p, n), n);
    assert IsFilling(c, p, n);
    assert Unplayed(p) == [];
    var t := Run(c, events);
    assert t.played + [] == t.played;
  }

  // ---- When playing starts -----------------------------------------------------------------------------

  /**
    What the listener is promised, told from the events alone: the samples received since the last flush,
    how many of them have been played, whether playing goes on, and whether the microphone is gated.
   */
  datatype Plan = Plan(received: seq<real>, count: nat, draining: bool, speaking: bool)

  /**
    Playing starts with a full cushion, or with any samples once the tail timeout has passed; it ends with
    the first quantum there are too few samples for.
   */
  function PlannedQuantum(c: Config, p: Plan, quiet: nat, n: nat): Plan
    requires p.count <= |p.received|
  {
    var waiting := |p.received| - p.count;
    if p.draining || waiting >= c.prebuffer || (waiting > 0 && quiet + n >= c.tailTimeout) then
      Plan(p.received, p.count + Least(n, waiting), n <= waiting, true)
    else p.(speaking := p.speaking && !(waiting == 0 && quiet + n >= c.tailTimeout))
  }

  function Planned(c: Config, events: seq<Event>): (p: Plan)
    ensures p.count <= |p.received|
  {
    if events == [] then Plan([], 0, false, false)
    else
      var first := events[..|events| - 1];
      var p := Planned(c, first);
      match events[|events| - 1]
      case Frame(f) => p.(received := p.received + f)
      case Flush => Plan([], 0, false, false)
      case Quantum(n) => PlannedQuantum(c, p, QuietSince(first), n)
  }

  /** The player does what the plan says. */
  ghost predicate Follows(t: Trace, p: Plan)
    requires p.count <= |p.received|
  {
    && t.received == p.received && t.played == AsSamples(p.received[..p.count])
    && t.player.playing == p.draining && t.player.reported == p.speaking
  }

  lemma UnplayedIsRest(received: seq<real>, count: nat, u: seq<real>)
    requires count <= |received| && AsSamples(received[..count]) + AsSamples(u) == AsSamples(received)
    ensures u == received[count..] && |u| == |received| - count
  {
    var all := AsSamples(received[..count]) + AsSamples(u);
    assert |all| == |received|;
    forall k | 0 <= k < |u| ensures u[k] == received[count + k] {
      assert all[count + k] == Num(u[k]) && AsSamples(received)[count + k] == Num(received[count + k]);
    }
  }

  lemma MorePlayed(received: seq<real>, count: nat, u: seq<real>, m: nat)
    requires count <= |received| && u == received[count..] && m <= |u|
    ensures AsSamples(received[..count]) + AsSamples(u[..m]) == AsSamples(received[..count + m])
  {
    assert received[..count + m] == received[..count] + u[..m];
    MapConcat(v => Num(v), received[..count], u[..m]);
  }

  lemma FillingFollows(c: Config, t: Trace, p: Plan, n: nat)
    requires p.count <= |p.received| && Follows(t, p) && InSync(t.player) && IsFilling(c, t.player, n)
    requires |Unplayed(t.player)| == |p.received| - p.count
    ensures Follows(Next(c, t, Quantum(n)), PlannedQuantum(c, p, t.player.quiet, n))
  {
    assert t.played + [] == t.played;
  }

  lemma PlayingFollows(c: Config, t: Trace, p: Plan, n: nat)
    requires p.count <= |p.received| && Follows(t, p) && InSync(t.player) && EdgesInOrder(t.player)
    requires !IsFilling(c, t.player, n) && !QuantumHits(c, t.player, n)
    requires Unplayed(t.player) == p.received[p.count..]
    ensures Follows(Next(c, t, Quantum(n)), PlannedQuantum(c, p, t.player.quiet, n))
  {
    var u, start := Unplayed(t.player), Started(t.player, n);
    SameQueue(t.player, start);
    PlaysInOrder(start, n);
    MorePlayed(p.received, p.count, u, Least(n, |u|));
  }

  lemma QuantumFollows(c: Config, t: Trace, p: Plan, n: nat)
    requires p.count <= |p.received| && Follows(t, p) && InSync(t.player) && EdgesInOrder(t.player)
    requires t.played + AsSamples(Unplayed(t.player)) == AsSamples(t.received) && !QuantumHits(c, t.player, n)
    ensures Follows(Next(c, t, Quantum(n)), PlannedQuantum(c, p, t.player.quiet, n))
  {
    UnplayedIsRest(p.received, p.count, Unplayed(t.player));
    if IsFilling(c, t.player, n) {
      FillingFollows(c, t, p, n);
    } else {
      PlayingFollows(c, t, p, n);
    }
  }

  /** Over every run that reaches no empty frame, the jitter buffer follows the plan. */
  lemma {:induction false} PlaybackFollowsPlan(c: Config, events: seq<Event>)
    requires Smooth(c, events)
    ensures Follows(Run(c, events), Planned(c, events))
  {
    if events == [] {
    } else {
      var k := |events| - 1;
      var first, t := events[..k], Run(c, events[..k]);
      SmoothBefore(c, events, k);
      PlaybackFollowsPlan(c, first);
      match events[k] {
        case Frame(f) => FrameFollows(t, Planned(c, first), f);
        case Flush =>
        case Quantum(n) =>
          assert SmoothAt(c, events, k);
          PlaybackLosesNothing(c, first);
          EdgesAlternate(c, first);
          QuietIsMeasured(c, first);
          QuantumFollows(c, t, Planned(c, first), n);
      }
    }
  }

  lemma FrameFollows(t: Trace, p: Plan, f: seq<real>)
    requires p.count <= |p.received| && Follows(t, p)
    ensures Follows(Trace(OnFrame(t.player, f), t.received + f, t.played), p.(received := p.received + f))
  {
    assert (p.received + f)[..p.count] == p.received[..p.count];
  }

  /**
    While playing has stopped, a quantum of n > 0 samples plays something exactly when a full cushion is
    waiting, or anything is and the tail timeout has passed: at the start and after every underrun.
   */
  lemma StartsExactlyWhen(c: Config, events: seq<Event>, n: nat)
    requires Smooth(c, events + [Quantum(n)]) && n > 0 && !Run(c, events).player.playing
    ensures var t := Run(c, events);
      var waiting := |t.received| - |t.played|;
      Run(c, events + [Quantum(n)]).played != t.played <==>
      waiting > 0 && (waiting >= c.prebuffer || QuietSince(events) + n >= c.tailTimeout)
  {
    var more := events + [Quantum(n)];
    assert more[..|events|] == events;
    SmoothBefore(c, more, |events|);
    PlaybackFollowsPlan(c, events);
    PlaybackFollowsPlan(c, more);
  }

  // ---- What fills the gaps -----------------------------------------------------------------------------

  /** The last of some samples, or the sample before them. */
  function LastOf(before: Sample, samples: seq<Sample>): Sample {
    if samples == [] then before else samples[|samples| - 1]
  }

  lemma {:induction false} PlayedEndsTail(p: Player, n: nat)
    ensures Played(p, n).0.tail == LastOf(p.tail, Played(p, n).1)
    decreases n
  {
    if n == 0 {
    } else {
      PlayedStep(p, n);
      if Refilled(p).cur.Some? {
        PlayedEndsTail(Taken(Refilled(p)).0, n - 1);
      }
    }
  }

  /** What a quantum does not play it fills with the decay of the last sample put out. */
  lemma FillContinues(c: Config, p: Player, n: nat)
    ensures var (q, played, fill) := Rendered(c, p, n);
      && |played| + |fill| == n
      && fill == Silence(c, LastOf(p.tail, played), |fill|)
      && q.tail == LastOf(LastOf(p.tail, played), fill)
  {
    var m := if IsFilling(c, p, n) then 0 else |Played(Started(p, n), n).1|;
    PlayedLength(Started(p, n), n);
    PlayedEndsTail(Started(p, n), n);
    var tail := LastOf(p.tail, Rendered(c, p, n).1);
    SilenceLength(c, tail, n - m);
    SilenceEndsTail(c, tail, n - m);
  }

  lemma {:induction false} SilenceEndsTail(c: Config, tail: Sample, n: nat)
    ensures TailAfter(c, tail, n) == LastOf(tail, Silence(c, tail, n))
    decreases n
  {
    if n == 0 {
    } else {
      SilenceLength(c, Faded(c, tail), n - 1);
      SilenceEndsTail(c, Faded(c, tail), n - 1);
    }
  }

  // ---- Progress ------------------------------------------------------------------------------------------

  /** ⌈a / q⌉. */
  function CeilDiv(a: nat, q: nat): nat
    requires q >= 1
  {
    DivNonNegative(a + q - 1, q);
    (a + q - 1) / q
  }

  /** The player and the samples played after `k` quanta of `q` samples with no message. */
  function Quanta(c: Config, p: Player, q: nat, k: nat): (Player, seq<Sample>)
    decreases k
  {
    if k == 0 then (p, [])
    else
      var (mid, played) := Quanta(c, p, q, k - 1);
      var (last, more, _) := Rendered(c, mid, q);
      (last, played + more)
  }

  /** Quanta still needed: those the tail timeout may take, and those the samples take. */
  function Needed(c: Config, p: Player, q: nat): nat
    requires q >= 1
  {
    if p.queued <= 0 then 0
    else CeilDiv(p.queued, q) + (if p.playing || p.quiet >= c.tailTimeout then 0 else CeilDiv(c.tailTimeout - p.quiet, q))
  }

  lemma CeilDivStep(a: nat, q: nat)
    requires q >= 1 && a >= 1
    ensures CeilDiv(a, q) >= 1
    ensures a >= q ==> CeilDiv(a - q, q) == CeilDiv(a, q) - 1
  {
    DivAddOne(a - 1, q);
    DivNonNegative(a - 1, q);
  }

  lemma FillingProgress(c: Config, p: Player, q: nat)
    requires InSync(p) && q >= 1 && IsFilling(c, p, q)
    ensures var r := Rendered(c, p, q).0;
      r.quiet == p.quiet + q && r.queued == p.queued && (p.queued > 0 ==> Needed(c, r, q) < Needed(c, p, q))
  {
    if p.queued > 0 {
      CeilDivStep(c.tailTimeout - p.quiet, q);
    }
  }

  lemma PlayingProgress(c: Config, p: Player, q: nat)
    requires InSync(p) && NoEmptyFrame(p) && q >= 1 && !IsFilling(c, p, q)
    ensures var r := Rendered(c, p, q).0;
      && r.quiet == p.quiet + q && r.queued == p.queued - Least(q, p.queued)
      && (r.playing <==> q <= p.queued)
  {
    var start, r := Started(p, q), Rendered(c, p, q).0;
    SameQueue(p, start);
    NeverHits(start, q);
    PlaysInOrder(start, q);
    SameQueue(Played(start, q).0, r);
  }

  /** One quantum with samples queued brings the end nearer. */
  lemma QuantumProgress(c: Config, p: Player, q: nat)
    requires InSync(p) && NoEmptyFrame(p) && q >= 1
    ensures var r := Rendered(c, p, q).0; r.quiet == p.quiet + q
    ensures var r := Rendered(c, p, q).0; p.queued == 0 ==> r.queued == 0
    ensures var r := Rendered(c, p, q).0; p.queued > 0 ==> Needed(c, r, q) < Needed(c, p, q)
  {
    if IsFilling(c, p, q) {
      FillingProgress(c, p, q);
    } else {
      var r := Rendered(c, p, q).0;
      PlayingProgress(c, p, q);
      AfterPlaying(p.queued, r, q);
      if p.queued > 0 {
        CeilDivStep(p.queued, q);
        NeededPlaying(c, p, r, q);
      }
    }
  }

  lemma NeededPlaying(c: Config, p: Player, r: Player, q: nat)
    requires q >= 1 && p.queued > 0 && r.queued == p.queued - Least(q, p.queued) && (r.queued > 0 ==> r.playing)
    requires CeilDiv(p.queued, q) >= 1 && (p.queued >= q ==> CeilDiv(p.queued - q, q) == CeilDiv(p.queued, q) - 1)
    ensures Needed(c, r, q) < Needed(c, p, q)
  {
    if !p.playing && p.quiet < c.tailTimeout {
      DivNonNegative(c.tailTimeout - p.quiet + q - 1, q);
    }
  }

  lemma AfterPlaying(before: nat, r: Player, q: nat)
    requires q >= 1 && r.queued == before - Least(q, before) && (r.playing <==> q <= before)
    ensures r.queued > 0 ==> r.playing && r.queued == before - q
  {
  }

  /** A quantum moves samples from what is unplayed to what is played. */
  lemma QuantumAdds(c: Config, mid: Player, q: nat, all: seq<Sample>, played: seq<Sample>)
    requires InSync(mid) && NoEmptyFrame(mid) && all == played + AsSamples(Unplayed(mid))
    ensures var (r, more, _) := Rendered(c, mid, q);
      InSync(r) && NoEmptyFrame(r) && all == (played + more) + AsSamples(Unplayed(r))
  {
    QuantumNeverHits(c, mid, q);
    QuantumKeeps(c, mid, q);
    Reassociate(played, Rendered(c, mid, q).1, AsSamples(Unplayed(Rendered(c, mid, q).0)));
  }

  /** The samples over some quanta: nothing is lost. */
  lemma {:induction false} QuantaKeep(c: Config, p: Player, q: nat, k: nat)
    requires InSync(p) && NoEmptyFrame(p)
    ensures var (r, played) := Quanta(c, p, q, k);
      InSync(r) && NoEmptyFrame(r) && AsSamples(Unplayed(p)) == played + AsSamples(Unplayed(r))
    decreases k
  {
    if k == 0 {
      assert [] + AsSamples(Unplayed(p)) == AsSamples(Unplayed(p));
    } else {
      QuantaKeep(c, p, q, k - 1);
      var (mid, played) := Quanta(c, p, q, k - 1);
      QuantumAdds(c, mid, q, AsSamples(Unplayed(p)), played);
    }
  }

  lemma NextQuanta(c: Config, p: Player, q: nat, k: nat) returns (mid: Player)
    requires k > 0 && InSync(p) && NoEmptyFrame(p)
    ensures mid == Quanta(c, p, q, k - 1).0 && Quanta(c, p, q, k).0 == Rendered(c, mid, q).0
    ensures InSync(mid) && NoEmptyFrame(mid)
  {
    mid := Quanta(c, p, q, k - 1).0;
    QuantaKeep(c, p, q, k - 1);
  }

  lemma {:induction false} QuantaQuiet(c: Config, p: Player, q: nat, k: nat)
    requires InSync(p) && NoEmptyFrame(p) && q >= 1
    ensures Quanta(c, p, q, k).0.quiet == p.quiet + q * k
    decreases k
  {
    if k == 0 {
      assert q * 0 == 0;
    } else {
      var mid := NextQuanta(c, p, q, k);
      QuantaQuiet(c, p, q, k - 1);
      QuantumProgress(c, mid, q);
      MulSucc(q, k - 1);
    }
  }

  lemma {:induction false} QuantaNeeded(c: Config, p: Player, q: nat, k: nat)
    requires InSync(p) && NoEmptyFrame(p) && q >= 1
    ensures Quanta(c, p, q, k).0.queued == 0 || Needed(c, Quanta(c, p, q, k).0, q) + k <= Needed(c, p, q)
    decreases k
  {
    if k == 0 {
    } else {
      var mid := NextQuanta(c, p, q, k);
      QuantaNeeded(c, p, q, k - 1);
      QuantumProgress(c, mid, q);
    }
  }

  /**
    Nothing is held hostage: with no further message, everything queued is played, in order,
    within ⌈TAIL / q⌉ + ⌈Q / q⌉ quanta of `q` samples, and two quanta later the end has been reported.
   */
  lemma PlaybackFinishes(c: Config, p: Player, q: nat)
    requires InSync(p) && NoEmptyFrame(p) && q >= 1 && c.prebuffer >= 1
    ensures var k := CeilDiv(c.tailTimeout, q) + CeilDiv(|Unplayed(p)|, q);
      && Unplayed(Quanta(c, p, q, k).0) == [] && Quanta(c, p, q, k).1 == AsSamples(Unplayed(p))
      && !Quanta(c, p, q, k + 2).0.reported
  {
    var k := CeilDiv(c.tailTimeout, q) + CeilDiv(|Unplayed(p)|, q);
    QuantaKeep(c, p, q, k);
    QuantaQuiet(c, p, q, k);
    QuantaNeeded(c, p, q, k);
    var (r, played) := Quanta(c, p, q, k);
    NeededBound(c, p, q);
    if r.queued > 0 {
      NeededPositive(c, r, q);
    }
    assert r.queued == 0 && Unplayed(r) == [];
    assert played + AsSamples([]) == played;
    QuietEnough(c.tailTimeout, q, k);
    Winding(c, r, q);
    assert Quanta(c, p, q, k + 1).0 == Rendered(c, r, q).0;
    assert Quanta(c, p, q, k + 2).0 == Rendered(c, Rendered(c, r, q).0, q).0;
  }

  lemma NeededBound(c: Config, p: Player, q: nat)
    requires InSync(p) && q >= 1
    ensures Needed(c, p, q) <= CeilDiv(c.tailTimeout, q) + CeilDiv(|Unplayed(p)|, q)
  {
    if !p.playing && p.quiet < c.tailTimeout {
      DivMono(c.tailTimeout - p.quiet + q - 1, c.tailTimeout + q - 1, q);
    }
  }

  lemma NeededPositive(c: Config, p: Player, q: nat)
    requires q >= 1 && p.queued > 0
    ensures Needed(c, p, q) >= 1
  {
    CeilDivStep(p.queued, q);
  }

  lemma QuietEnough(tail: nat, q: nat, k: nat)
    requires q >= 1 && k >= CeilDiv(tail, q)
    ensures q * k >= tail
  {
    var d := CeilDiv(tail, q);
    assert tail + q - 1 == q * d + (tail + q - 1) % q;
    MulMono(q, d, k);
  }

  /** An empty player that has been quiet long enough reports the end within two quanta. */
  lemma Winding(c: Config, p: Player, q: nat)
    requires InSync(p) && NoEmptyFrame(p) && p.queued == 0 && q >= 1 && p.quiet >= c.tailTimeout && c.prebuffer >= 1
    ensures !Rendered(c, Rendered(c, p, q).0, q).0.reported
  {
    var r := Rendered(c, p, q).0;
    if p.playing {
      var start := Started(p, q);
      SameQueue(p, start);
      NeverHits(start, q);
      PlaysInOrder(start, q);
      SameQueue(Played(start, q).0, r);
      assert !r.playing;
    }
    assert r.queued == 0 && !r.playing && r.quiet >= c.tailTimeout;
    assert IsFilling(c, r, q);
  }
}
