/** server/src/rate_limit.rs: the fixed-window limiter with opportunistic eviction. */
module RateLimit {
  import opened Arithmetic
  import opened Sequences

  /** The map is pruned when it holds more entries than this. */
  const EVICT_ABOVE := 10_000

  /** Calls counted in the window that opened at `start`. Times are clock ticks. */
  datatype Entry = Entry(count: nat, start: int)

  type Hits = map<string, Entry>

  /** `Instant::duration_since`, which saturates at zero. */
  function Elapsed(now: int, start: int): nat {
    if now < start then 0 else now - start
  }

  /** `retain`: drop the entries whose window, as the caller measures it, has fully elapsed. */
  function Pruned(hits: Hits, window: nat, now: int): Hits {
    map k | k in hits && Elapsed(now, hits[k].start) <= window :: hits[k]
  }

  function Counted(e: Entry, max: nat, window: nat, now: int): (Entry, bool) {
    if Elapsed(now, e.start) > window then (Entry(1, now), true)
    else if e.count < max then (Entry(e.count + 1, e.start), true)
    else (e, false)
  }

  function EntryOf(hits: Hits, key: string, now: int): Entry {
    if key in hits then hits[key] else Entry(0, now)
  }

  /** One call: the map afterwards and the answer, with or without the eviction path. */
  function Allowed(hits: Hits, c: Call, evicts: bool): (Hits, bool) {
    var kept := if evicts && |hits| > EVICT_ABOVE then Pruned(hits, c.window, c.now) else hits;
    var (e, ok) := Counted(EntryOf(kept, c.key, c.now), c.max, c.window, c.now);
    (kept[c.key := e], ok)
  }

  /** A call of `allow`, with the time at which it is made. */
  datatype Call = Call(key: string, max: nat, window: nat, now: int)

  class RateLimiter {
    var hits: Hits

    constructor ()
      ensures hits == map[]
    {
      hits := map[];
    }

    method Allow(key: string, max: nat, window: nat, now: int) returns (ok: bool)
      modifies this
      ensures (hits, ok) == Allowed(old(hits), Call(key, max, window, now), true)
    {
      if |hits| > EVICT_ABOVE {
        hits := Pruned(hits, window, now);
      }
      ghost var kept := hits;
      if key !in hits {
        hits := hits[key := Entry(0, now)];
      }
      var Entry(count, start) := hits[key];
      if Elapsed(now, start) > window {
        hits := hits[key := Entry(1, now)];
        ok := true;
      } else if count < max {
        hits := hits[key := Entry(count + 1, start)];
        ok := true;
      } else {
        ok := false;
      }
      assert hits == kept[key := hits[key]];
    }
  }

  // ---- Runs ----------------------------------------------------------------------------------------

  function Answers(hits: Hits, calls: seq<Call>, evicts: bool): (r: seq<bool>)
    ensures |r| == |calls|
    decreases |calls|
  {
    if calls == [] then []
    else
      var (h, ok) := Allowed(hits, calls[0], evicts);
      [ok] + Answers(h, calls[1..], evicts)
  }

  function After(hits: Hits, calls: seq<Call>, evicts: bool): Hits
    decreases |calls|
  {
    if calls == [] then hits else After(Allowed(hits, calls[0], evicts).0, calls[1..], evicts)
  }

  /** No call is made before `from`, and none before the one that precedes it. */
  predicate Chronological(calls: seq<Call>, from: int) {
    calls != [] ==> from <= calls[0].now && Chronological(calls[1..], calls[0].now)
  }

  lemma {:induction false} AfterConcat(hits: Hits, a: seq<Call>, b: seq<Call>, evicts: bool)
    ensures After(hits, a + b, evicts) == After(After(hits, a, evicts), b, evicts)
    decreases |a|
  {
    if a == [] {
      assert a + b == b;
    } else {
      assert (a + b)[1..] == a[1..] + b && (a + b)[0] == a[0];
      AfterConcat(Allowed(hits, a[0], evicts).0, a[1..], b, evicts);
    }
  }

  lemma {:induction false} AnswersConcat(hits: Hits, a: seq<Call>, b: seq<Call>, evicts: bool)
    ensures Answers(hits, a + b, evicts) == Answers(hits, a, evicts) + Answers(After(hits, a, evicts), b, evicts)
    decreases |a|
  {
    if a == [] {
      assert a + b == b;
      assert [] + Answers(hits, b, evicts) == Answers(hits, b, evicts);
    } else {
      var (h, ok) := Allowed(hits, a[0], evicts);
      assert (a + b)[1..] == a[1..] + b && (a + b)[0] == a[0];
      AnswersConcat(h, a[1..], b, evicts);
      Reassociate([ok], Answers(h, a[1..], evicts), Answers(After(h, a[1..], evicts), b, evicts));
    }
  }

  /** A map within the threshold is never pruned. */
  lemma AllowedSmall(hits: Hits, c: Call, evicts: bool)
    requires |hits| <= EVICT_ABOVE
    ensures var (e, ok) := Counted(EntryOf(hits, c.key, c.now), c.max, c.window, c.now);
      Allowed(hits, c, evicts) == (hits[c.key := e], ok)
  {
  }

  lemma Overwrite(k: string, a: Entry, b: Entry)
    ensures map[k := a][k := b] == map[k := b]
    ensures |map[k := a]| == 1
  {
  }

  // ---- Eviction is invisible, exactly when ---------------------------------------------------------

  predicate Uses(calls: seq<Call>, windows: set<nat>, maxes: set<nat>) {
    forall i :: 0 <= i < |calls| ==> calls[i].window in windows && calls[i].max in maxes
  }

  /** The limiter that prunes answers every run as one that never forgets would. */
  ghost predicate EvictionInvisible(windows: set<nat>, maxes: set<nat>) {
    forall calls, from :: Chronological(calls, from) && Uses(calls, windows, maxes)
      ==> Answers(map[], calls, true) == Answers(map[], calls, false)
  }

  /** `pruned` is `full` less some entries whose window had elapsed by time `now`. */
  ghost predicate Forgets(pruned: Hits, full: Hits, window: nat, now: int) {
    && (forall k :: k in pruned ==> k in full && pruned[k] == full[k])
    && (forall k :: k in full && k !in pruned ==> Elapsed(now, full[k].start) > window)
  }

  lemma StepForgets(pruned: Hits, full: Hits, c: Call, from: int)
    requires Forgets(pruned, full, c.window, from) && from <= c.now && c.max >= 1
    ensures Allowed(pruned, c, true).1 == Allowed(full, c, false).1
    ensures Forgets(Allowed(pruned, c, true).0, Allowed(full, c, false).0, c.window, c.now)
  {
    var kept := if |pruned| > EVICT_ABOVE then Pruned(pruned, c.window, c.now) else pruned;
    assert Forgets(kept, full, c.window, c.now);
    if c.key in full && c.key !in kept {
      assert Counted(full[c.key], c.max, c.window, c.now) == (Entry(1, c.now), true);
    }
    assert Counted(EntryOf(kept, c.key, c.now), c.max, c.window, c.now)
      == Counted(EntryOf(full, c.key, c.now), c.max, c.window, c.now);
  }

  lemma {:induction false} SameAnswers(pruned: Hits, full: Hits, calls: seq<Call>, window: nat, from: int)
    requires Forgets(pruned, full, window, from) && Chronological(calls, from)
    requires forall i :: 0 <= i < |calls| ==> calls[i].window == window && calls[i].max >= 1
    ensures Answers(pruned, calls, true) == Answers(full, calls, false)
    decreases |calls|
  {
    if calls == [] {
    } else {
      var c := calls[0];
      StepForgets(pruned, full, c, from);
      SameAnswers(Allowed(pruned, c, true).0, Allowed(full, c, false).0, calls[1..], window, c.now);
    }
  }

  /** Among at most 10 000 keys nothing is ever forgotten, whatever windows and limits are mixed. */
  lemma {:induction false} FewKeysAreRemembered(hits: Hits, calls: seq<Call>, keys: set<string>)
    requires hits.Keys <= keys && |keys| <= 10_000
    requires forall i :: 0 <= i < |calls| ==> calls[i].key in keys
    ensures Answers(hits, calls, true) == Answers(hits, calls, false)
    ensures After(hits, calls, true) == After(hits, calls, false)
    decreases |calls|
  {
    if calls == [] {
    } else {
      FewerKeys(hits.Keys, keys);
      assert |hits| == |hits.Keys|;
      AllowedSmall(hits, calls[0], true);
      AllowedSmall(hits, calls[0], false);
      FewKeysAreRemembered(Allowed(hits, calls[0], true).0, calls[1..], keys);
    }
  }

  lemma FewerKeys(a: set<string>, b: set<string>)
    requires a <= b
    ensures |a| <= |b|
  {
    assert b == a + (b - a);
  }

  /** Beyond 10 000 entries a call forgets every other key whose window, as the caller measures it, has elapsed. */
  lemma ForgetsExactlyWhen(hits: Hits, c: Call, k: string)
    requires k != c.key
    ensures k in Allowed(hits, c, true).0 <==> k in hits && (|hits| <= 10_000 || c.now - hits[k].start <= c.window)
    ensures k in Allowed(hits, c, true).0 ==> Allowed(hits, c, true).0[k] == hits[k]
  {
  }

  /** Distinct keys, one for each number. */
  function NumberedKey(i: nat): string {
    seq(i, _ => 'k')
  }

  /** One call each for the keys numbered `i` to `n - 1`, at time 0. */
  function Fill(i: nat, n: nat, max: nat, window: nat): seq<Call>
    requires i <= n
    decreases n - i
  {
    if i == n then [] else [Call(NumberedKey(i), max, window, 0)] + Fill(i + 1, n, max, window)
  }

  /** `n` calls for one key at one time. */
  function Repeat(n: nat, c: Call): seq<Call> {
    if n == 0 then [] else [c] + Repeat(n - 1, c)
  }

  /** The keys numbered below `n` have entries, all opened at time 0, and no other key has. */
  ghost predicate Holds(hits: Hits, n: nat) {
    && |hits| == n
    && (forall i: nat :: i < n ==> NumberedKey(i) in hits && hits[NumberedKey(i)].start == 0)
    && (forall k :: k in hits ==> |k| < n && hits[k].start == 0)
  }

  lemma {:induction false} FillHolds(hits: Hits, i: nat, n: nat, max: nat, window: nat, evicts: bool)
    requires 1 <= i <= n <= EVICT_ABOVE + 1 && Holds(hits, i)
    ensures Holds(After(hits, Fill(i, n, max, window), evicts), n)
    ensures After(hits, Fill(i, n, max, window), evicts)[NumberedKey(0)] == hits[NumberedKey(0)]
    decreases n - i
  {
    if i < n {
      var c := Call(NumberedKey(i), max, window, 0);
      assert |NumberedKey(i)| == i && NumberedKey(i) !in hits;
      var h := Allowed(hits, c, evicts).0;
      assert h == hits[NumberedKey(i) := h[NumberedKey(i)]];
      assert NumberedKey(0) != NumberedKey(i);
      FillHolds(h, i + 1, n, max, window, evicts);
      assert Fill(i, n, max, window)[1..] == Fill(i + 1, n, max, window);
    }
  }

  /** Calls within the limit at one time are all admitted and counted. */
  lemma {:induction false} RepeatCounts(count: nat, n: nat, c: Call, evicts: bool)
    requires count + n <= c.max
    ensures After(map[c.key := Entry(count, c.now)], Repeat(n, c), evicts) == map[c.key := Entry(count + n, c.now)]
    ensures Answers(map[c.key := Entry(count, c.now)], Repeat(n, c), evicts) == seq(n, _ => true)
    decreases n
  {
    if n == 0 {
    } else {
      var hits := map[c.key := Entry(count, c.now)];
      assert Repeat(n, c)[1..] == Repeat(n - 1, c);
      Overwrite(c.key, Entry(count, c.now), Entry(count + 1, c.now));
      AllowedSmall(hits, c, evicts);
      assert Allowed(hits, c, evicts) == (map[c.key := Entry(count + 1, c.now)], true);
      RepeatCounts(count + 1, n - 1, c, evicts);
    }
  }

  lemma {:induction false} FillChronological(i: nat, n: nat, max: nat, window: nat, rest: seq<Call>)
    requires i <= n && Chronological(rest, 0)
    ensures Chronological(Fill(i, n, max, window) + rest, 0)
    decreases n - i
  {
    if i < n {
      FillChronological(i + 1, n, max, window, rest);
      assert (Fill(i, n, max, window) + rest)[1..] == Fill(i + 1, n, max, window) + rest;
    } else {
      assert [] + rest == rest;
    }
  }

  lemma {:induction false} RepeatChronological(n: nat, c: Call, rest: seq<Call>)
    requires Chronological(rest, c.now)
    ensures Chronological(Repeat(n, c) + rest, c.now)
  {
    if n > 0 {
      RepeatChronological(n - 1, c, rest);
      assert (Repeat(n, c) + rest)[1..] == Repeat(n - 1, c) + rest;
    } else {
      assert [] + rest == rest;
    }
  }

  lemma {:induction false} FillUses(i: nat, n: nat, max: nat, window: nat)
    requires i <= n
    ensures forall j :: 0 <= j < |Fill(i, n, max, window)| ==> Fill(i, n, max, window)[j].window == window && Fill(i, n, max, window)[j].max == max
    decreases n - i
  {
    if i < n {
      FillUses(i + 1, n, max, window);
    }
  }

  lemma {:induction false} RepeatUses(n: nat, c: Call)
    ensures forall j :: 0 <= j < |Repeat(n, c)| ==> Repeat(n, c)[j] == c
  {
    if n == 0 {
    } else {
      RepeatUses(n - 1, c);
    }
  }

  /**
    A run that betrays the eviction: key 0 is used up, the map is filled past the threshold, a
    caller with a shorter window prunes it, and key 0 calls again.
   */
  function Betrayal(uses: nat, max: nat, window: nat, shorter: nat, now: int): seq<Call> {
    Repeat(uses, Call(NumberedKey(0), max, window, 0)) + (Fill(1, EVICT_ABOVE + 1, max, window) +
      [Call(NumberedKey(EVICT_ABOVE + 1), max, shorter, now), Call(NumberedKey(0), max, window, now)])
  }

  lemma BetrayalIsRun(uses: nat, max: nat, window: nat, shorter: nat, now: int, windows: set<nat>, maxes: set<nat>)
    requires window in windows && shorter in windows && max in maxes && now >= 0
    ensures Chronological(Betrayal(uses, max, window, shorter, now), 0)
    ensures Uses(Betrayal(uses, max, window, shorter, now), windows, maxes)
  {
    var last := [Call(NumberedKey(EVICT_ABOVE + 1), max, shorter, now), Call(NumberedKey(0), max, window, now)];
    assert last[1..][1..] == [];
    assert Chronological(last[1..], now);
    assert Chronological(last, 0);
    FillChronological(1, EVICT_ABOVE + 1, max, window, last);
    RepeatChronological(uses, Call(NumberedKey(0), max, window, 0), Fill(1, EVICT_ABOVE + 1, max, window) + last);
    FillUses(1, EVICT_ABOVE + 1, max, window);
    RepeatUses(uses, Call(NumberedKey(0), max, window, 0));
  }

  lemma FirstUses(uses: nat, c: Call, evicts: bool)
    requires uses >= 1 && if c.max == 0 then uses == 1 else uses == c.max
    ensures After(map[], Repeat(uses, c), evicts) == map[c.key := Entry(c.max, c.now)]
  {
    assert Repeat(uses, c)[1..] == Repeat(uses - 1, c);
    AllowedSmall(map[], c, evicts);
    if c.max > 0 {
      RepeatCounts(1, c.max - 1, c, evicts);
    }
  }

  /** After the first two parts of the run, pruned or not, key 0 has `count` calls on record. */
  lemma BeforePruning(uses: nat, max: nat, window: nat, evicts: bool) returns (h: Hits)
    requires uses >= 1 && if max == 0 then uses == 1 else uses == max
    ensures h == After(After(map[], Repeat(uses, Call(NumberedKey(0), max, window, 0)), evicts), Fill(1, EVICT_ABOVE + 1, max, window), evicts)
    ensures Holds(h, EVICT_ABOVE + 1) && h[NumberedKey(0)] == Entry(max, 0)
  {
    var c := Call(NumberedKey(0), max, window, 0);
    var h0 := After(map[], Repeat(uses, c), evicts);
    FirstUses(uses, c, evicts);
    Overwrite(c.key, Entry(max, 0), Entry(max, 0));
    FillHolds(h0, 1, EVICT_ABOVE + 1, max, window, evicts);
    h := After(h0, Fill(1, EVICT_ABOVE + 1, max, window), evicts);
  }

  /** The two calls that end the run, with and without the eviction path. */
  lemma LastTwoCalls(h: Hits, max: nat, window: nat, shorter: nat, now: int, evicts: bool)
    requires Holds(h, EVICT_ABOVE + 1) && h[NumberedKey(0)] == Entry(max, 0) && now > shorter
    requires if max == 0 then now > window else now <= window
    ensures var last := [Call(NumberedKey(EVICT_ABOVE + 1), max, shorter, now), Call(NumberedKey(0), max, window, now)];
      |Answers(h, last, evicts)| == 2 && Answers(h, last, evicts)[1] == (evicts <==> max > 0)
  {
    var a, b := Call(NumberedKey(EVICT_ABOVE + 1), max, shorter, now), Call(NumberedKey(0), max, window, now);
    var last := [a, b];
    var h1 := Allowed(h, a, evicts).0;
    assert |a.key| == EVICT_ABOVE + 1 && |b.key| == 0;
    assert last[1..] == [b] && [b][1..] == [];
    if evicts {
      assert b.key !in Pruned(h, shorter, now);
      assert b.key !in h1;
    } else {
      assert h1[b.key] == Entry(max, 0);
    }
    AnswerIsFresh(h1, b, evicts);
  }

  /** A key is judged by its own entry, if the pruning leaves it alone. */
  lemma AnswerIsFresh(hits: Hits, c: Call, evicts: bool)
    requires evicts ==> c.key !in hits
    ensures Answers(hits, [c], evicts) == [Counted(EntryOf(hits, c.key, c.now), c.max, c.window, c.now).1]
  {
    assert [c][1..] == [];
  }

  lemma BetrayalShows(uses: nat, max: nat, window: nat, shorter: nat, now: int)
    requires uses >= 1 && if max == 0 then uses == 1 else uses == max
    requires now > shorter && if max == 0 then now > window else now <= window
    ensures var run := Betrayal(uses, max, window, shorter, now); Answers(map[], run, true) != Answers(map[], run, false)
  {
    var last := [Call(NumberedKey(EVICT_ABOVE + 1), max, shorter, now), Call(NumberedKey(0), max, window, now)];
    var r := Repeat(uses, Call(NumberedKey(0), max, window, 0));
    var f := Fill(1, EVICT_ABOVE + 1, max, window);
    var h := BeforePruning(uses, max, window, true);
    var g := BeforePruning(uses, max, window, false);
    LastTwoCalls(h, max, window, shorter, now, true);
    LastTwoCalls(g, max, window, shorter, now, false);
    EndOfRun(r, f, last, true);
    EndOfRun(r, f, last, false);
  }

  lemma EndOfRun(r: seq<Call>, f: seq<Call>, last: seq<Call>, evicts: bool)
    ensures var all := Answers(map[], r + (f + last), evicts);
      all[|r| + |f|..] == Answers(After(After(map[], r, evicts), f, evicts), last, evicts)
  {
    AnswersConcat(map[], r, f + last, evicts);
    AnswersConcat(After(map[], r, evicts), f, last, evicts);
  }

  /**
    The exact condition: pruning is invisible on every run if and only if all callers share one
    window length and every limit admits at least one call.
   */
  lemma EvictionInvisibleExactlyWhen(windows: set<nat>, maxes: set<nat>)
    requires windows != {} && maxes != {}
    ensures EvictionInvisible(windows, maxes)
      <==> (forall v, w :: v in windows && w in windows ==> v == w) && 0 !in maxes
  {
    var w :| w in windows;
    if 0 in maxes {
      BetrayalIsRun(1, 0, w, w, w + 1, windows, maxes);
      BetrayalShows(1, 0, w, w, w + 1);
    } else if exists v, u :: v in windows && u in windows && v < u {
      var v, u :| v in windows && u in windows && v < u;
      var m :| m in maxes;
      BetrayalIsRun(m, m, u, v, v + 1, windows, maxes);
      BetrayalShows(m, m, u, v, v + 1);
    } else {
      forall calls, from | Chronological(calls, from) && Uses(calls, windows, maxes)
        ensures Answers(map[], calls, true) == Answers(map[], calls, false)
      {
        SameAnswers(map[], map[], calls, w, from);
      }
    }
  }

  // ---- How many calls get through --------------------------------------------------------------------

  /** The admitted calls of `key` made at `lo` or later and at `hi` or earlier. */
  function Admissions(calls: seq<Call>, answers: seq<bool>, key: string, lo: int, hi: int): nat
    requires |answers| == |calls|
    decreases |calls|
  {
    if calls == [] then 0
    else
      var counts := calls[0].key == key && answers[0] && lo <= calls[0].now <= hi;
      (if counts then 1 else 0) + Admissions(calls[1..], answers[1..], key, lo, hi)
  }

  /** Every window of the run is at least `s`, and each call of `key` allows between 1 and `m` calls. */
  predicate Limited(calls: seq<Call>, s: nat, key: string, m: nat) {
    m >= 1 && forall i :: 0 <= i < |calls| ==>
      calls[i].window >= s && (calls[i].key == key ==> 1 <= calls[i].max <= m)
  }

  /** The calls of `key` use windows of at most `w`. */
  predicate Owns(calls: seq<Call>, w: nat, key: string) {
    forall i :: 0 <= i < |calls| ==> calls[i].key == key ==> calls[i].window <= w
  }

  /** The last record of `key` was `count` calls since `start`; if it is gone, more than `s` has passed. */
  predicate Tracks(hits: Hits, s: nat, key: string, count: nat, start: int, now: int) {
    start <= now && if key in hits then hits[key] == Entry(count, start) else now - start > s
  }

  /** A call of another key may prune the record, but not before `s` has passed. */
  lemma OtherStep(hits: Hits, c: Call, s: nat, key: string, count: nat, start: int, from: int)
    requires Tracks(hits, s, key, count, start, from) && from <= c.now && c.window >= s && c.key != key
    ensures Tracks(Allowed(hits, c, true).0, s, key, count, start, c.now)
  {
  }

  /** A call of the key goes on the record, or opens a new one after more than `s`. */
  lemma OwnStep(hits: Hits, c: Call, s: nat, m: nat, count: nat, start: int, from: int)
    requires Tracks(hits, s, c.key, count, start, from) && from <= c.now && c.window >= s
    requires 1 <= count <= m && 1 <= c.max <= m
    ensures var (h, ok) := Allowed(hits, c, true);
      && c.key in h
      && ((ok && h[c.key] == Entry(1, c.now) && c.now - start > s)
          || (h[c.key] == Entry(count + (if ok then 1 else 0), start) && h[c.key].count <= m
              && c.now - start <= c.window))
  {
  }

  lemma {:induction false} NothingAfter(calls: seq<Call>, answers: seq<bool>, key: string, lo: int, hi: int, from: int)
    requires |answers| == |calls| && Chronological(calls, from) && hi < from
    ensures Admissions(calls, answers, key, lo, hi) == 0
    decreases |calls|
  {
    if calls == [] {
    } else {
      NothingAfter(calls[1..], answers[1..], key, lo, hi, calls[0].now);
    }
  }

  /** The admissions a record still allows up to time `hi`: what is left, and `m` per later window. */
  function Allowance(count: nat, start: int, m: nat, w: nat, hi: int): int {
    if hi < start then 0 else m - count + m * ((hi - start) / (w + 1))
  }

  lemma AllowanceOfReset(count: nat, start: int, now: int, m: nat, w: nat, hi: int)
    requires 1 <= count <= m && now - start > w && now <= hi
    ensures 1 + Allowance(1, now, m, w, hi) <= Allowance(count, start, m, w, hi)
  {
    DivAddOne(hi - now, w + 1);
    DivMono(hi - now + (w + 1), hi - start, w + 1);
    MulMono(m, 1 + (hi - now) / (w + 1), (hi - start) / (w + 1));
    assert m * (1 + (hi - now) / (w + 1)) == m + m * ((hi - now) / (w + 1));
  }

  lemma AllowanceNat(count: nat, start: int, m: nat, w: nat, hi: int)
    requires count <= m
    ensures Allowance(count, start, m, w, hi) >= 0
  {
    if hi >= start {
      DivNonNegative(hi - start, w + 1);
      MulMono(m, 0, (hi - start) / (w + 1));
    }
  }

  /** From a record on, no more is admitted up to time `hi` than the record allows. */
  lemma {:induction false} WithinAllowance(hits: Hits, calls: seq<Call>, s: nat, key: string, m: nat, lo: int, hi: int,
      count: nat, start: int, from: int)
    requires Limited(calls, s, key, m) && Chronological(calls, from)
    requires Tracks(hits, s, key, count, start, from) && 1 <= count <= m
    ensures Admissions(calls, Answers(hits, calls, true), key, lo, hi) <= Allowance(count, start, m, s, hi)
    decreases |calls|
  {
    AllowanceNat(count, start, m, s, hi);
    if calls == [] {
    } else {
      var c := calls[0];
      var (h, ok) := Allowed(hits, c, true);
      LaterCalls(hits, calls, s, key, m);
      if c.now > hi {
        NothingAfter(calls[1..], Answers(h, calls[1..], true), key, lo, hi, c.now);
      } else if c.key != key {
        OtherStep(hits, c, s, key, count, start, from);
        WithinAllowance(h, calls[1..], s, key, m, lo, hi, count, start, c.now);
      } else {
        OwnStep(hits, c, s, m, count, start, from);
        WithinAllowance(h, calls[1..], s, key, m, lo, hi, h[key].count, h[key].start, c.now);
        if c.now - start > s {
          AllowanceOfReset(count, start, c.now, m, s, hi);
        }
      }
    }
  }

  /** The rest of a run after its first call. */
  lemma LaterCalls(hits: Hits, calls: seq<Call>, s: nat, key: string, m: nat)
    requires calls != []
    ensures Answers(hits, calls, true)[1..] == Answers(Allowed(hits, calls[0], true).0, calls[1..], true)
    ensures Limited(calls, s, key, m) ==> Limited(calls[1..], s, key, m)
    ensures forall w :: Owns(calls, w, key) ==> Owns(calls[1..], w, key)
  {
    assert forall i :: 0 <= i < |calls[1..]| ==> calls[1..][i] == calls[i + 1];
  }

  /** The most calls of one key that can get through in a closed interval of length `d`. */
  function WorstCase(m: nat, w: nat, d: nat): int {
    var anew, amid := m + m * (d / (w + 1)), m - 1 + m * ((d + w) / (w + 1));
    if anew < amid then amid else anew
  }

  lemma FirstAdmission(count: nat, start: int, at: int, m: nat, w: nat, lo: int, hi: int)
    requires 1 <= count <= m && lo <= at <= hi
    requires (count == 1 && start == at) || (count >= 2 && at - w <= start <= at)
    ensures 1 + Allowance(count, start, m, w, hi) <= WorstCase(m, w, hi - lo)
  {
    if count >= 2 {
      DivMono(hi - start, hi - lo + w, w + 1);
      MulMono(m, (hi - start) / (w + 1), (hi - lo + w) / (w + 1));
    } else {
      DivMono(hi - at, hi - lo, w + 1);
      MulMono(m, (hi - at) / (w + 1), (hi - lo) / (w + 1));
    }
  }

  lemma WorstCaseNat(m: nat, w: nat, d: nat)
    ensures WorstCase(m, w, d) >= 0
  {
    DivNonNegative(d, w + 1);
    MulMono(m, 0, d / (w + 1));
  }

  /** What is on record for `key`: between 1 and `m` calls, in a window opened by time `now`. */
  predicate OnRecord(hits: Hits, key: string, m: nat, now: int) {
    key in hits ==> 1 <= hits[key].count <= m && hits[key].start <= now
  }

  /** A key without a record is tracked as one whose record has run out. */
  lemma TrackedRecord(hits: Hits, s: nat, key: string, m: nat, now: int) returns (count: nat, start: int)
    requires OnRecord(hits, key, m, now) && m >= 1
    ensures Tracks(hits, s, key, count, start, now) && 1 <= count <= m
  {
    count, start := if key in hits then hits[key].count else 1, if key in hits then hits[key].start else now - s - 1;
  }

  lemma StepOnRecord(hits: Hits, c: Call, key: string, m: nat, from: int)
    requires OnRecord(hits, key, m, from) && from <= c.now && m >= 1 && (c.key == key ==> 1 <= c.max <= m)
    ensures OnRecord(Allowed(hits, c, true).0, key, m, c.now)
    ensures var (h, ok) := Allowed(hits, c, true);
      c.key == key && ok ==> h[key] == Entry(1, c.now) || (h[key].count >= 2 && c.now - c.window <= h[key].start)
  {
  }

  lemma {:induction false} BoundedFrom(hits: Hits, calls: seq<Call>, w: nat, key: string, m: nat, lo: int, hi: int, from: int)
    requires Limited(calls, w, key, m) && Owns(calls, w, key) && Chronological(calls, from) && lo <= hi
    requires OnRecord(hits, key, m, from)
    ensures Admissions(calls, Answers(hits, calls, true), key, lo, hi) <= WorstCase(m, w, hi - lo)
    decreases |calls|
  {
    WorstCaseNat(m, w, hi - lo);
    if calls == [] {
    } else {
      var c := calls[0];
      var (h, ok) := Allowed(hits, c, true);
      StepOnRecord(hits, c, key, m, from);
      LaterCalls(hits, calls, w, key, m);
      if c.key == key && ok && lo <= c.now <= hi {
        WithinAllowance(h, calls[1..], w, key, m, lo, hi, h[key].count, h[key].start, c.now);
        FirstAdmission(h[key].count, h[key].start, c.now, m, w, lo, hi);
      } else {
        BoundedFrom(h, calls[1..], w, key, m, lo, hi, c.now);
      }
    }
  }

  /**
    As long as nobody who shares the limiter has a shorter window than the key, the real limiter admits
    at most max(m·(1 + ⌊d/(w+1)⌋), m − 1 + m·⌊(d+w)/(w+1)⌋) of its calls in any closed interval of
    length `d`.
   */
  lemma IntervalBound(calls: seq<Call>, w: nat, key: string, m: nat, lo: int, hi: int, from: int)
    requires Limited(calls, w, key, m) && Owns(calls, w, key) && Chronological(calls, from) && lo <= hi
    ensures Admissions(calls, Answers(map[], calls, true), key, lo, hi) <= WorstCase(m, w, hi - lo)
  {
    BoundedFrom(map[], calls, w, key, m, lo, hi, from);
  }

  /** In one window length at most 2·max − 1 calls get through. */
  lemma WindowBound(calls: seq<Call>, w: nat, key: string, m: nat, lo: int, from: int)
    requires Limited(calls, w, key, m) && Owns(calls, w, key) && Chronological(calls, from)
    ensures Admissions(calls, Answers(map[], calls, true), key, lo, lo + w) <= 2 * m - 1
  {
    IntervalBound(calls, w, key, m, lo, lo + w, from);
    DivIs(w, w + 1, 0, w);
    if w >= 1 {
      DivIs(w + w, w + 1, 1, w - 1);
    } else {
      DivIs(w + w, w + 1, 0, 0);
    }
  }

  // ---- Sharing the limiter with a shorter window -------------------------------------------------------

  /** What a record of `count` calls allows from time `from` on if it may be reset at once. */
  function SharedAllowance(count: nat, m: nat, s: nat, d: nat): int {
    m - count + m * (1 + d / (s + 1))
  }

  lemma SharedAllowanceShrinks(count: nat, m: nat, s: nat, d: nat, e: nat)
    requires d <= e && count <= m
    ensures 0 <= SharedAllowance(count, m, s, d) <= SharedAllowance(count, m, s, e)
  {
    DivMono(d, e, s + 1);
    DivNonNegative(d, s + 1);
    MulMono(m, 1 + d / (s + 1), 1 + e / (s + 1));
    MulMono(m, 0, 1 + d / (s + 1));
  }

  lemma ResetShared(count: nat, m: nat, s: nat, now: int, hi: int)
    requires count <= m && now <= hi
    ensures 1 + Allowance(1, now, m, s, hi) <= SharedAllowance(count, m, s, hi - now)
  {
    MulSucc(m, (hi - now) / (s + 1));
  }

  lemma OneLessShared(count: nat, m: nat, s: nat, d: nat)
    ensures SharedAllowance(count, m, s, d) == SharedAllowance(count + 1, m, s, d) + 1
  {
  }

  /** What a call of the key and the calls after it use up, whether it opens a new record or not. */
  lemma OwnShared(count: nat, m: nat, s: nat, now: int, hi: int, e: Entry, ok: bool, more: nat)
    requires count <= m && now <= hi
    requires (ok && more <= Allowance(1, now, m, s, hi)) ||
      (e.count == count + (if ok then 1 else 0) && more <= SharedAllowance(e.count, m, s, hi - now))
    ensures (if ok then 1 else 0) + more <= SharedAllowance(count, m, s, hi - now)
  {
    ResetShared(count, m, s, now, hi);
    OneLessShared(count, m, s, hi - now);
  }

  /** The admissions of a run are those of its first call and of the rest. */
  lemma AdmissionsFirst(hits: Hits, calls: seq<Call>, key: string, lo: int, hi: int) returns (more: nat)
    requires calls != []
    ensures var (h, ok) := Allowed(hits, calls[0], true);
      && more == Admissions(calls[1..], Answers(h, calls[1..], true), key, lo, hi)
      && Admissions(calls, Answers(hits, calls, true), key, lo, hi)
        == (if calls[0].key == key && ok && lo <= calls[0].now <= hi then 1 else 0) + more
  {
    var h := Allowed(hits, calls[0], true).0;
    assert Answers(hits, calls, true)[1..] == Answers(h, calls[1..], true);
    more := Admissions(calls[1..], Answers(h, calls[1..], true), key, lo, hi);
  }

  /** What the calls from time `from` on get through after a record of `count` calls. */
  ghost predicate SharedHolds(hits: Hits, calls: seq<Call>, s: nat, key: string, m: nat, lo: int, hi: int, count: nat, from: int)
    requires from <= hi
  {
    Admissions(calls, Answers(hits, calls, true), key, lo, hi) <= SharedAllowance(count, m, s, hi - from)
  }

  lemma SharedOtherCall(hits: Hits, calls: seq<Call>, s: nat, key: string, m: nat, lo: int, hi: int, count: nat, from: int)
    requires calls != [] && from <= calls[0].now <= hi && calls[0].key != key && count <= m
    requires SharedHolds(Allowed(hits, calls[0], true).0, calls[1..], s, key, m, lo, hi, count, calls[0].now)
    ensures SharedHolds(hits, calls, s, key, m, lo, hi, count, from)
  {
    var more := AdmissionsFirst(hits, calls, key, lo, hi);
    SharedAllowanceShrinks(count, m, s, hi - calls[0].now, hi - from);
  }

  lemma SharedOwnCall(hits: Hits, calls: seq<Call>, s: nat, m: nat, lo: int, hi: int, count: nat, from: int, h: Hits, ok: bool)
    requires calls != [] && from <= calls[0].now <= hi && count <= m
    requires (h, ok) == Allowed(hits, calls[0], true) && calls[0].key in h
    requires
      var c := calls[0];
      || (ok && Admissions(calls[1..], Answers(h, calls[1..], true), c.key, lo, hi) <= Allowance(1, c.now, m, s, hi))
      || (h[c.key].count == count + (if ok then 1 else 0)
          && SharedHolds(h, calls[1..], s, c.key, m, lo, hi, h[c.key].count, c.now))
    ensures SharedHolds(hits, calls, s, calls[0].key, m, lo, hi, count, from)
  {
    var c := calls[0];
    var more := AdmissionsFirst(hits, calls, c.key, lo, hi);
    OwnShared(count, m, s, c.now, hi, h[c.key], ok, more);
    SharedAllowanceShrinks(count, m, s, hi - c.now, hi - from);
  }

  lemma SharedLate(hits: Hits, calls: seq<Call>, s: nat, key: string, m: nat, lo: int, hi: int, count: nat, from: int)
    requires from <= hi && count <= m && Chronological(calls, from) && (calls == [] || calls[0].now > hi)
    ensures SharedHolds(hits, calls, s, key, m, lo, hi, count, from)
  {
    SharedAllowanceShrinks(count, m, s, 0, hi - from);
    if calls == [] {
    } else {
      var more := AdmissionsFirst(hits, calls, key, lo, hi);
      NothingAfter(calls[1..], Answers(Allowed(hits, calls[0], true).0, calls[1..], true), key, lo, hi, calls[0].now);
    }
  }

  lemma {:induction false} WithinShared(hits: Hits, calls: seq<Call>, s: nat, key: string, m: nat, lo: int, hi: int,
      count: nat, start: int, from: int)
    requires Limited(calls, s, key, m) && Chronological(calls, from) && from <= hi
    requires Tracks(hits, s, key, count, start, from) && 1 <= count <= m
    ensures SharedHolds(hits, calls, s, key, m, lo, hi, count, from)
    decreases |calls|
  {
    if calls == [] || calls[0].now > hi {
      SharedLate(hits, calls, s, key, m, lo, hi, count, from);
    } else {
      var c := calls[0];
      var (h, ok) := Allowed(hits, c, true);
      LaterCalls(hits, calls, s, key, m);
      if c.key != key {
        OtherStep(hits, c, s, key, count, start, from);
        WithinShared(h, calls[1..], s, key, m, lo, hi, count, start, c.now);
        SharedOtherCall(hits, calls, s, key, m, lo, hi, count, from);
      } else {
        OwnStep(hits, c, s, m, count, start, from);
        if ok && h[key] == Entry(1, c.now) {
          WithinAllowance(h, calls[1..], s, key, m, lo, hi, 1, c.now, c.now);
        } else {
          WithinShared(h, calls[1..], s, key, m, lo, hi, h[key].count, start, c.now);
        }
        SharedOwnCall(hits, calls, s, m, lo, hi, count, from, h, ok);
      }
    }
  }

  lemma {:induction false} SharedFrom(hits: Hits, calls: seq<Call>, s: nat, key: string, m: nat, lo: int, hi: int, from: int)
    requires Limited(calls, s, key, m) && Chronological(calls, from) && lo <= hi
    requires OnRecord(hits, key, m, from)
    ensures Admissions(calls, Answers(hits, calls, true), key, lo, hi) <= SharedAllowance(1, m, s, hi - lo)
    decreases |calls|, if from < lo then 1 else 0
  {
    if from >= lo {
      SharedAllowanceShrinks(1, m, s, 0, hi - lo);
      if from > hi {
        NothingAfter(calls, Answers(hits, calls, true), key, lo, hi, from);
      } else {
        var count, start := TrackedRecord(hits, s, key, m, from);
        WithinShared(hits, calls, s, key, m, lo, hi, count, start, from);
        SharedAllowanceShrinks(1, m, s, hi - from, hi - lo);
      }
    } else if calls == [] {
      SharedAllowanceShrinks(1, m, s, 0, hi - lo);
    } else if calls[0].now < lo {
      StepOnRecord(hits, calls[0], key, m, from);
      LaterCalls(hits, calls, s, key, m);
      SharedFrom(Allowed(hits, calls[0], true).0, calls[1..], s, key, m, lo, hi, calls[0].now);
    } else {
      SharedFrom(hits, calls, s, key, m, lo, hi, calls[0].now);
    }
  }

  /**
    Whatever windows share the limiter, with `s` the shortest: in any closed interval of length `d`
    at most m − 1 + m·(1 + ⌊d/(s+1)⌋) calls of a key get through.
   */
  lemma SharedBound(calls: seq<Call>, s: nat, key: string, m: nat, lo: int, hi: int, from: int)
    requires Limited(calls, s, key, m) && Chronological(calls, from) && lo <= hi
    ensures Admissions(calls, Answers(map[], calls, true), key, lo, hi) <= m - 1 + m * (1 + (hi - lo) / (s + 1))
  {
    SharedFrom(map[], calls, s, key, m, lo, hi, from);
  }

  // ---- The bound is reached --------------------------------------------------------------------------

  /** Admissions of a run are those of its parts. */
  lemma {:induction false} AdmissionsConcat(a: seq<Call>, b: seq<Call>, x: seq<bool>, y: seq<bool>, key: string, lo: int, hi: int)
    requires |a| == |x| && |b| == |y|
    ensures Admissions(a + b, x + y, key, lo, hi) == Admissions(a, x, key, lo, hi) + Admissions(b, y, key, lo, hi)
    decreases |a|
  {
    if a == [] {
      assert a + b == b && x + y == y;
    } else {
      assert (a + b)[1..] == a[1..] + b && (x + y)[1..] == x[1..] + y;
      AdmissionsConcat(a[1..], b, x[1..], y, key, lo, hi);
    }
  }

  lemma {:induction false} RepeatAdmissions(n: nat, c: Call, lo: int, hi: int)
    requires lo <= c.now <= hi
    ensures |Repeat(n, c)| == n && Admissions(Repeat(n, c), seq(n, _ => true), c.key, lo, hi) == n
  {
    if n == 0 {
    } else {
      RepeatAdmissions(n - 1, c, lo, hi);
      assert Repeat(n, c)[1..] == Repeat(n - 1, c);
      assert seq(n, _ => true)[1..] == seq(n - 1, _ => true);
    }
  }

  /**
    One call at time 0, the rest of the allowance just before the window ends, and a full
    allowance just after it.
   */
  function Burst(key: string, w: nat, m: nat): seq<Call>
    requires m >= 1
  {
    [Call(key, m, w, 0)] + (Repeat(m - 1, Call(key, m, w, w)) + Repeat(m, Call(key, m, w, w + 1)))
  }

  lemma BurstIsRun(key: string, w: nat, m: nat)
    requires m >= 1
    ensures Limited(Burst(key, w, m), w, key, m) && Owns(Burst(key, w, m), w, key) && Chronological(Burst(key, w, m), 0)
  {
    var a, b := Repeat(m - 1, Call(key, m, w, w)), Repeat(m, Call(key, m, w, w + 1));
    RepeatUses(m - 1, Call(key, m, w, w));
    RepeatUses(m, Call(key, m, w, w + 1));
    RepeatChronological(m, Call(key, m, w, w + 1), []);
    assert b + [] == b;
    assert Chronological(b, w);
    RepeatChronological(m - 1, Call(key, m, w, w), b);
    assert Burst(key, w, m)[1..] == a + b;
    assert Chronological(a + b, 0);
  }

  /** The burst is admitted whole. */
  lemma BurstAnswers(key: string, w: nat, m: nat)
    requires m >= 1
    ensures Answers(map[], Burst(key, w, m), true) == [true] + (seq(m - 1, _ => true) + seq(m, _ => true))
  {
    var first, c, d := Call(key, m, w, 0), Call(key, m, w, w), Call(key, m, w, w + 1);
    var a, b := Repeat(m - 1, c), Repeat(m, d);
    AllowedSmall(map[], first, true);
    assert [first][1..] == [];
    assert After(map[], [first], true) == map[key := Entry(1, 0)];
    assert Answers(map[], [first], true) == [true];
    AnswersConcat(map[], [first], a + b, true);
    AnswersConcat(map[key := Entry(1, 0)], a, b, true);
    LateUses(1, 0, m - 1, c);
    NewWindow(m, 0, m, d);
  }

  /** Calls that stay within the window and the limit are admitted. */
  lemma {:induction false} LateUses(count: nat, start: int, n: nat, c: Call)
    requires count + n <= c.max && start <= c.now <= start + c.window
    ensures Answers(map[c.key := Entry(count, start)], Repeat(n, c), true) == seq(n, _ => true)
    ensures After(map[c.key := Entry(count, start)], Repeat(n, c), true) == map[c.key := Entry(count + n, start)]
    decreases n
  {
    if n == 0 {
    } else {
      Overwrite(c.key, Entry(count, start), Entry(count + 1, start));
      AllowedSmall(map[c.key := Entry(count, start)], c, true);
      assert Repeat(n, c)[1..] == Repeat(n - 1, c);
      LateUses(count + 1, start, n - 1, c);
    }
  }

  lemma NewWindow(count: nat, start: int, n: nat, c: Call)
    requires 1 <= n <= c.max && c.now > start + c.window
    ensures Answers(map[c.key := Entry(count, start)], Repeat(n, c), true) == seq(n, _ => true)
  {
    Overwrite(c.key, Entry(count, start), Entry(1, c.now));
    AllowedSmall(map[c.key := Entry(count, start)], c, true);
    assert Repeat(n, c)[1..] == Repeat(n - 1, c);
    LateUses(1, c.now, n - 1, c);
  }

  /** The bound of one window length is sharp: some run gets 2·max − 1 calls through. */
  lemma WindowBoundIsReached(key: string, w: nat, m: nat)
    requires m >= 1 && w >= 1
    ensures var run := Burst(key, w, m); Limited(run, w, key, m) && Owns(run, w, key) && Chronological(run, 0)
    ensures var run := Burst(key, w, m); Admissions(run, Answers(map[], run, true), key, 1, 1 + w) == 2 * m - 1
  {
    BurstIsRun(key, w, m);
    BurstAnswers(key, w, m);
    var first, c, d := Call(key, m, w, 0), Call(key, m, w, w), Call(key, m, w, w + 1);
    var a, b := Repeat(m - 1, c), Repeat(m, d);
    RepeatAdmissions(m - 1, c, 1, 1 + w);
    RepeatAdmissions(m, d, 1, 1 + w);
    AdmissionsConcat(a, b, seq(m - 1, _ => true), seq(m, _ => true), key, 1, 1 + w);
    AdmissionsConcat([first], a + b, [true], seq(m - 1, _ => true) + seq(m, _ => true), key, 1, 1 + w);
    assert Admissions([first], [true], key, 1, 1 + w) == 0;
  }

  // ---- A shorter window among the callers does harm -----------------------------------------------------

  /**
    One call of key 0, a crowd of other keys, the rest of key 0's allowance when the shorter window `s`
    has just elapsed, a caller with that window, and a full allowance of key 0 at the same time.
   */
  function Crowd(w: nat, s: nat, m: nat): seq<Call>
    requires m >= 1
  {
    [Call(NumberedKey(0), m, w, 0)] + (Fill(1, EVICT_ABOVE + 1, m, s) + (Repeat(m - 1, Call(NumberedKey(0), m, w, s + 1)) +
      ([Call(NumberedKey(EVICT_ABOVE + 1), m, s, s + 1)] + Repeat(m, Call(NumberedKey(0), m, w, s + 1)))))
  }

  lemma {:induction false} RepeatAdmitted(hits: Hits, n: nat, c: Call, count: nat, start: int)
    requires c.key in hits && hits[c.key] == Entry(count, start) && count + n <= c.max
    requires start <= c.now <= start + c.window
    ensures Answers(hits, Repeat(n, c), true) == seq(n, _ => true)
    decreases n
  {
    if n == 0 {
    } else {
      assert Repeat(n, c)[1..] == Repeat(n - 1, c);
      RepeatAdmitted(Allowed(hits, c, true).0, n - 1, c, count + 1, start);
    }
  }

  /** A call of a key whose own pruning finds nothing to drop. */
  lemma KeepStep(hits: Hits, c: Call, count: nat)
    requires c.key in hits && hits[c.key] == Entry(count, 0) && count < c.max
    requires 0 <= c.now <= c.window && forall k :: k in hits ==> hits[k].start == 0
    ensures Allowed(hits, c, true).0 == hits[c.key := Entry(count + 1, 0)]
  {
    assert Pruned(hits, c.window, c.now) == hits;
  }

  lemma {:induction false} RepeatKeeps(hits: Hits, n: nat, c: Call, count: nat)
    requires c.key in hits && hits[c.key] == Entry(count, 0) && count + n <= c.max
    requires 0 <= c.now <= c.window && forall k :: k in hits ==> hits[k].start == 0
    ensures After(hits, Repeat(n, c), true) == hits[c.key := Entry(count + n, 0)]
    decreases n
  {
    if n == 0 {
      assert hits == hits[c.key := Entry(count, 0)];
    } else {
      var next := hits[c.key := Entry(count + 1, 0)];
      KeepStep(hits, c, count);
      RepeatKeeps(next, n - 1, c, count + 1);
      assert next[c.key := Entry(count + n, 0)] == hits[c.key := Entry(count + n, 0)];
      assert Repeat(n, c)[1..] == Repeat(n - 1, c);
    }
  }

  lemma {:induction false} FillOthers(i: nat, n: nat, max: nat, window: nat, answers: seq<bool>, lo: int, hi: int)
    requires 1 <= i <= n && |answers| == |Fill(i, n, max, window)|
    ensures Admissions(Fill(i, n, max, window), answers, NumberedKey(0), lo, hi) == 0
    decreases n - i
  {
    if i == n {
    } else {
      assert |NumberedKey(i)| == i && |NumberedKey(0)| == 0;
      assert Fill(i, n, max, window)[1..] == Fill(i + 1, n, max, window);
      FillOthers(i + 1, n, max, window, answers[1..], lo, hi);
    }
  }

  /** What each part of the crowd run finds and answers. */
  lemma CrowdParts(w: nat, s: nat, m: nat) returns (h0: Hits, h1: Hits, h2: Hits, h3: Hits)
    requires m >= 1 && s < w
    ensures var a, p, b := Repeat(m - 1, Call(NumberedKey(0), m, w, s + 1)),
        Call(NumberedKey(EVICT_ABOVE + 1), m, s, s + 1), Repeat(m, Call(NumberedKey(0), m, w, s + 1));
      && h0 == After(map[], [Call(NumberedKey(0), m, w, 0)], true)
      && Answers(map[], [Call(NumberedKey(0), m, w, 0)], true) == [true]
      && h1 == After(h0, Fill(1, EVICT_ABOVE + 1, m, s), true)
      && h2 == After(h1, a, true) && Answers(h1, a, true) == seq(m - 1, _ => true)
      && h3 == After(h2, [p], true)
      && Answers(h3, b, true) == seq(m, _ => true)
  {
    var first, c, p := Call(NumberedKey(0), m, w, 0), Call(NumberedKey(0), m, w, s + 1), Call(NumberedKey(EVICT_ABOVE + 1), m, s, s + 1);
    assert [first][1..] == [] && [p][1..] == [];
    AllowedSmall(map[], first, true);
    h0 := map[first.key := Entry(1, 0)];
    assert After(map[], [first], true) == h0;
    FillHolds(h0, 1, EVICT_ABOVE + 1, m, s, true);
    h1 := After(h0, Fill(1, EVICT_ABOVE + 1, m, s), true);
    RepeatAdmitted(h1, m - 1, c, 1, 0);
    RepeatKeeps(h1, m - 1, c, 1);
    h2 := h1[c.key := Entry(m, 0)];
    h3 := Allowed(h2, p, true).0;
    assert |p.key| == EVICT_ABOVE + 1 && |c.key| == 0;
    assert |h2| == EVICT_ABOVE + 1 && c.key !in Pruned(h2, s, s + 1);
    FreshAdmitted(h3, m, c);
  }

  lemma FirstAdmitted(hits: Hits, c: Call)
    requires c.key !in hits && c.max >= 1
    ensures var (h, ok) := Allowed(hits, c, true); ok && c.key in h && h[c.key] == Entry(1, c.now)
  {
  }

  lemma FreshAdmitted(hits: Hits, n: nat, c: Call)
    requires c.key !in hits && 1 <= n <= c.max
    ensures Answers(hits, Repeat(n, c), true) == seq(n, _ => true)
  {
    var (h, ok) := Allowed(hits, c, true);
    FirstAdmitted(hits, c);
    RepeatAdmitted(h, n - 1, c, 1, c.now);
    assert Repeat(n, c)[1..] == Repeat(n - 1, c);
    assert Answers(hits, Repeat(n, c), true) == [true] + seq(n - 1, _ => true);
  }

  /** The answers to a run in four parts and a last one. */
  lemma FiveParts(a: seq<Call>, b: seq<Call>, c: seq<Call>, d: seq<Call>, e: seq<Call>, h0: Hits, h1: Hits, h2: Hits, h3: Hits)
    requires h0 == After(map[], a, true) && h1 == After(h0, b, true) && h2 == After(h1, c, true) && h3 == After(h2, d, true)
    ensures Answers(map[], a + (b + (c + (d + e))), true) == Answers(map[], a, true) + (Answers(h0, b, true) +
      (Answers(h1, c, true) + (Answers(h2, d, true) + Answers(h3, e, true))))
  {
    AnswersConcat(map[], a, b + (c + (d + e)), true);
    AnswersConcat(h0, b, c + (d + e), true);
    AnswersConcat(h1, c, d + e, true);
    AnswersConcat(h2, d, e, true);
  }

  /** All of key 0's calls get through: 2·max − 1 of them at one instant. */
  lemma CrowdAdmissions(w: nat, s: nat, m: nat, lo: int)
    requires m >= 1 && s < w && 0 <= lo <= s + 1
    ensures Admissions(Crowd(w, s, m), Answers(map[], Crowd(w, s, m), true), NumberedKey(0), lo, s + 1)
      == (if lo == 0 then 1 else 0) + 2 * m - 1
  {
    var key := NumberedKey(0);
    var first, f := [Call(key, m, w, 0)], Fill(1, EVICT_ABOVE + 1, m, s);
    var c := Call(key, m, w, s + 1);
    var a, p, b := Repeat(m - 1, c), [Call(NumberedKey(EVICT_ABOVE + 1), m, s, s + 1)], Repeat(m, c);
    var h0, h1, h2, h3 := CrowdParts(w, s, m);
    FiveParts(first, f, a, p, b, h0, h1, h2, h3);
    var x, y, z := seq(m - 1, _ => true), Answers(h2, p, true), seq(m, _ => true);
    RepeatAdmissions(m - 1, c, lo, s + 1);
    RepeatAdmissions(m, c, lo, s + 1);
    FillOthers(1, EVICT_ABOVE + 1, m, s, Answers(h0, f, true), lo, s + 1);
    AdmissionsConcat(p, b, y, z, key, lo, s + 1);
    AdmissionsConcat(a, p + b, x, y + z, key, lo, s + 1);
    AdmissionsConcat(f, a + (p + b), Answers(h0, f, true), x + (y + z), key, lo, s + 1);
    AdmissionsConcat(first, f + (a + (p + b)), [true], Answers(h0, f, true) + (x + (y + z)), key, lo, s + 1);
    OneCall(first[0], true, key, lo, s + 1);
    OneCall(p[0], y[0], key, lo, s + 1);
    assert y == [y[0]] && |NumberedKey(EVICT_ABOVE + 1)| != |key|;
  }

  lemma OneCall(c: Call, ok: bool, key: string, lo: int, hi: int)
    ensures Admissions([c], [ok], key, lo, hi) == if c.key == key && ok && lo <= c.now <= hi then 1 else 0
  {
    assert [c][1..] == [] && [ok][1..] == [];
  }

  /** All calls use one of the windows, and those of `key` the window `w` and the limit `m`. */
  predicate Mixes(calls: seq<Call>, windows: set<nat>, w: nat, key: string, m: nat) {
    forall i :: 0 <= i < |calls| ==>
      calls[i].window in windows && (calls[i].key == key ==> calls[i].window == w && calls[i].max == m)
  }

  lemma MixesConcat(a: seq<Call>, b: seq<Call>, windows: set<nat>, w: nat, key: string, m: nat)
    requires Mixes(a, windows, w, key, m) && Mixes(b, windows, w, key, m)
    ensures Mixes(a + b, windows, w, key, m)
  {
  }

  lemma {:induction false} FillMixes(i: nat, n: nat, windows: set<nat>, w: nat, s: nat, m: nat)
    requires 1 <= i <= n && s in windows
    ensures Mixes(Fill(i, n, m, s), windows, w, NumberedKey(0), m)
    decreases n - i
  {
    if i == n {
    } else {
      assert |NumberedKey(i)| == i && |NumberedKey(0)| == 0;
      FillMixes(i + 1, n, windows, w, s, m);
    }
  }

  lemma CrowdIsRun(windows: set<nat>, w: nat, s: nat, m: nat)
    requires m >= 1 && w in windows && s in windows
    ensures Chronological(Crowd(w, s, m), 0) && Mixes(Crowd(w, s, m), windows, w, NumberedKey(0), m)
  {
    var key := NumberedKey(0);
    var first, f := [Call(key, m, w, 0)], Fill(1, EVICT_ABOVE + 1, m, s);
    var c := Call(key, m, w, s + 1);
    var a, p, b := Repeat(m - 1, c), [Call(NumberedKey(EVICT_ABOVE + 1), m, s, s + 1)], Repeat(m, c);
    assert |NumberedKey(EVICT_ABOVE + 1)| != |key|;
    RepeatUses(m - 1, c);
    RepeatUses(m, c);
    FillMixes(1, EVICT_ABOVE + 1, windows, w, s, m);
    MixesConcat(p, b, windows, w, key, m);
    MixesConcat(a, p + b, windows, w, key, m);
    MixesConcat(f, a + (p + b), windows, w, key, m);
    MixesConcat(first, f + (a + (p + b)), windows, w, key, m);
    RepeatChronological(m, c, []);
    assert b + [] == b && (p + b)[1..] == b;
    RepeatChronological(m - 1, c, p + b);
    EarlierFrom(a + (p + b), s + 1, 0);
    FillChronological(1, EVICT_ABOVE + 1, m, s, a + (p + b));
    assert Crowd(w, s, m)[1..] == f + (a + (p + b));
  }

  lemma EarlierFrom(calls: seq<Call>, from: int, earlier: int)
    requires Chronological(calls, from) && earlier <= from
    ensures Chronological(calls, earlier)
  {
  }

  /** The bound for an unshared limiter holds on every run that mixes these windows. */
  ghost predicate IntervalBounded(windows: set<nat>, w: nat, m: nat) {
    forall calls, key, lo, hi, from :: Mixes(calls, windows, w, key, m) && Chronological(calls, from) && lo <= hi ==>
      Admissions(calls, Answers(map[], calls, true), key, lo, hi) <= WorstCase(m, w, hi - lo)
  }

  /** A key gets that bound exactly when nobody it shares the limiter with has a shorter window. */
  lemma IntervalBoundExactlyWhen(windows: set<nat>, w: nat, m: nat)
    requires m >= 1 && w in windows
    ensures IntervalBounded(windows, w, m) <==> forall v :: v in windows ==> w <= v
  {
    if s :| s in windows && s < w {
      CrowdIsRun(windows, w, s, m);
      CrowdAdmissions(w, s, m, 0);
      DivIs(s + 1, w + 1, 0, s + 1);
      DivIs(s + 1 + w, w + 1, 1, s);
    } else {
      forall calls, key, lo, hi, from | Mixes(calls, windows, w, key, m) && Chronological(calls, from) && lo <= hi
        ensures Admissions(calls, Answers(map[], calls, true), key, lo, hi) <= WorstCase(m, w, hi - lo)
      {
        IntervalBound(calls, w, key, m, lo, hi, from);
      }
    }
  }

  /** The bound for a shared limiter is reached within one instant. */
  lemma SharedBoundIsReached(w: nat, s: nat, m: nat)
    requires m >= 1 && s < w
    ensures Limited(Crowd(w, s, m), s, NumberedKey(0), m) && Chronological(Crowd(w, s, m), 0)
    ensures Admissions(Crowd(w, s, m), Answers(map[], Crowd(w, s, m), true), NumberedKey(0), s + 1, s + 1) == m - 1 + m * (1 + 0 / (s + 1))
  {
    CrowdIsRun({w, s}, w, s, m);
    CrowdAdmissions(w, s, m, s + 1);
    DivIs(0, s + 1, 0, 0);
  }

  // ---- A refusal is deserved -------------------------------------------------------------------------

  /** Every call on record for a key was admitted since its window opened. */
  lemma {:induction false} RecordIsBacked(calls: seq<Call>, key: string, from: int, to: int)
    requires Chronological(calls, from) && forall i :: 0 <= i < |calls| ==> calls[i].now <= to
    ensures var h := After(map[], calls, true); key in h ==> h[key].start <= to
    ensures var h := After(map[], calls, true);
      key in h ==> h[key].count <= Admissions(calls, Answers(map[], calls, true), key, h[key].start, to)
    decreases |calls|
  {
    if calls == [] {
    } else {
      var first, c := calls[..|calls| - 1], calls[|calls| - 1];
      assert calls == first + [c];
      ChronologicalPrefix(first, c, from);
      RecordIsBacked(first, key, from, c.now);
      LastCall(first, c, key);
      var h := After(map[], first, true);
      RecordStep(h, c, key);
      var next := After(map[], calls, true);
      if key in next {
        var start := next[key].start;
        assert OneMore(first, c, Answers(map[], first, true), Allowed(h, c, true).1, key, start, to);
        LaterEnd(first, Answers(map[], first, true), key, start, c.now, to);
      }
    }
  }

  lemma RecordStep(h: Hits, c: Call, key: string)
    requires key in h ==> h[key].start <= c.now
    ensures key in Allowed(h, c, true).0 ==> Stepped(h, c, key)
  {
  }

  /** After a call, the record of `key` is the old one with the call counted if admitted, or starts with it. */
  predicate Stepped(h: Hits, c: Call, key: string)
    requires key in Allowed(h, c, true).0
  {
    var e, gained := Allowed(h, c, true).0[key], if c.key == key && Allowed(h, c, true).1 then 1 else 0;
    && e.start <= c.now
    && ((key in h && e.start == h[key].start && e.count <= h[key].count + gained) || e.count <= gained)
  }

  predicate OneMore(first: seq<Call>, c: Call, answers: seq<bool>, ok: bool, key: string, lo: int, hi: int)
    requires |answers| == |first|
  {
    Admissions(first + [c], answers + [ok], key, lo, hi) ==
      Admissions(first, answers, key, lo, hi) + if c.key == key && ok && lo <= c.now <= hi then 1 else 0
  }

  /** The last call of a run, its answer and what it adds to the admissions. */
  lemma LastCall(first: seq<Call>, c: Call, key: string)
    ensures var h := After(map[], first, true); var ok := Allowed(h, c, true).1;
      && After(map[], first + [c], true) == Allowed(h, c, true).0
      && Answers(map[], first + [c], true) == Answers(map[], first, true) + [ok]
      && (forall lo, hi :: OneMore(first, c, Answers(map[], first, true), ok, key, lo, hi))
  {
    AfterConcat(map[], first, [c], true);
    AnswersConcat(map[], first, [c], true);
    var h := After(map[], first, true);
    assert [c][1..] == [];
    assert Answers(h, [c], true) == [Allowed(h, c, true).1];
    forall lo, hi
      ensures OneMore(first, c, Answers(map[], first, true), Allowed(h, c, true).1, key, lo, hi)
    {
      AdmissionsConcat(first, [c], Answers(map[], first, true), [Allowed(h, c, true).1], key, lo, hi);
      assert [Allowed(h, c, true).1][1..] == [];
    }
  }

  /**
    Whenever the real limiter turns a call away, whatever windows and limits share it, the key has had
    the full allowance of that call admitted within the call's own window.
   */
  lemma RefusalIsDeserved(calls: seq<Call>, c: Call, from: int)
    requires Chronological(calls + [c], from)
    requires Answers(map[], calls + [c], true)[|calls|] == false
    ensures Admissions(calls, Answers(map[], calls, true), c.key, c.now - c.window, c.now) >= c.max
  {
    ChronologicalPrefix(calls, c, from);
    LastCall(calls, c, c.key);
    RecordIsBacked(calls, c.key, from, c.now);
    var h := After(map[], calls, true);
    if c.key in h {
      EarlierStart(calls, Answers(map[], calls, true), c.key, h[c.key].start, c.now - c.window, c.now);
    }
  }

  lemma {:induction false} ChronologicalPrefix(calls: seq<Call>, c: Call, from: int)
    requires Chronological(calls + [c], from)
    ensures Chronological(calls, from) && from <= c.now
    ensures forall i :: 0 <= i < |calls| ==> calls[i].now <= c.now
    decreases |calls|
  {
    if calls == [] {
      assert [c][0] == c;
    } else {
      assert (calls + [c])[1..] == calls[1..] + [c] && (calls + [c])[0] == calls[0];
      ChronologicalPrefix(calls[1..], c, calls[0].now);
      assert forall i :: 1 <= i < |calls| ==> calls[i] == calls[1..][i - 1];
    }
  }

  lemma {:induction false} EarlierStart(calls: seq<Call>, answers: seq<bool>, key: string, lo: int, earlier: int, hi: int)
    requires |answers| == |calls|
    ensures earlier <= lo ==> Admissions(calls, answers, key, lo, hi) <= Admissions(calls, answers, key, earlier, hi)
    decreases |calls|
  {
    if calls == [] {
    } else {
      EarlierStart(calls[1..], answers[1..], key, lo, earlier, hi);
    }
  }

  lemma {:induction false} LaterEnd(calls: seq<Call>, answers: seq<bool>, key: string, lo: int, hi: int, later: int)
    requires |answers| == |calls| && hi <= later
    ensures Admissions(calls, answers, key, lo, hi) <= Admissions(calls, answers, key, lo, later)
    decreases |calls|
  {
    if calls == [] {
    } else {
      LaterEnd(calls[1..], answers[1..], key, lo, hi, later);
    }
  }
}
