/**
  scripts/gen-ios-splash.py: a small PNG reader (8-bit RGB and RGBA, every filter type) and an RGB
  writer. Compression and the checksum are parameters. Filtering is section 6 of RFC 2083 and the
  chunk layout is section 3.2.
 */
module Png {
  import opened Arithmetic
  import opened Sequences
  import opened Wrappers

  type Byte = b: int | 0 <= b < 256

  type Bytes = seq<Byte>

  const WORD: nat := 0x1_0000_0000

  type Word = n: int | 0 <= n < 0x1_0000_0000

  /** What the reader and the writer raise. */
  datatype Error = NotPng | BadStruct | BadZlib | BadColourType | OutOfRange

  datatype Image = Image(width: nat, height: nat, rgb: Bytes)

  datatype Header = Header(width: Word, height: Word, colourType: Byte)

  function Signature(): Bytes { [0x89, 0x50, 0x4E, 0x47, 0x0D, 0x0A, 0x1A, 0x0A] }

  function Ihdr(): Bytes { [0x49, 0x48, 0x44, 0x52] }

  function Idat(): Bytes { [0x49, 0x44, 0x41, 0x54] }

  function Iend(): Bytes { [0x49, 0x45, 0x4E, 0x44] }

  /** A chunk type spelt in four bytes. */
  predicate Spells(typ: Bytes, a: Byte, b: Byte, c: Byte, d: Byte) {
    |typ| == 4 && typ[0] == a && typ[1] == b && typ[2] == c && typ[3] == d
  }

  predicate IsIhdr(typ: Bytes) { Spells(typ, 0x49, 0x48, 0x44, 0x52) }

  predicate IsIdat(typ: Bytes) { Spells(typ, 0x49, 0x44, 0x41, 0x54) }

  predicate IsIend(typ: Bytes) { Spells(typ, 0x49, 0x45, 0x4E, 0x44) }

  // ---- Slices and words --------------------------------------------------------------------------------

  function Min(a: nat, b: nat): nat {
    if a <= b then a else b
  }

  /** `s[i:i+n]`, which stops at the end of `s`. */
  function Slice(s: Bytes, i: nat, n: nat): Bytes {
    s[Min(i, |s|)..Min(i + n, |s|)]
  }

  /** Four bytes, most significant first. */
  function Packed(n: Word): (r: Bytes)
    ensures |r| == 4
  {
    var high := n / 256;
    var higher := high / 256;
    [higher / 256, higher % 256, high % 256, n % 256]
  }

  function Unpacked(s: Bytes): Word
    requires |s| == 4
  {
    var high: int := s[0];
    var higher := high * 256 + s[1];
    (higher * 256 + s[2]) * 256 + s[3]
  }

  /** The number whose digits to base 256 are the four bytes from `i` on, the highest first. */
  function BigEndian(s: Bytes, i: nat): int
    requires i + 4 <= |s|
  {
    var a: int, b: int, c: int, d: int := s[i], s[i + 1], s[i + 2], s[i + 3];
    a * 16777216 + b * 65536 + c * 256 + d
  }

  lemma UnpackedPacked(n: Word)
    ensures Unpacked(Packed(n)) == n
    ensures BigEndian(Packed(n), 0) == n
  {
  }

  // ---- Filters -----------------------------------------------------------------------------------------

  function Abs(x: int): nat {
    if x < 0 then -x else x
  }

  /** The Paeth predictor of section 6.6. */
  function Paeth(a: Byte, b: Byte, c: Byte): Byte {
    var p := a + b - c;
    var pa, pb, pc := Abs(p - a), Abs(p - b), Abs(p - c);
    if pa <= pb && pa <= pc then a else if pb <= pc then b else c
  }

  /** What filter type `ft` predicts from the byte to the left, the one above, and the one above left. */
  function Predicted(ft: Byte, a: Byte, b: Byte, c: Byte): Byte {
    if ft == 1 then a
    else if ft == 2 then b
    else if ft == 3 then (a + b) / 2
    else if ft == 4 then Paeth(a, b, c)
    else 0
  }

  type Predictor = (Byte, Byte, Byte) -> Byte

  function PredictorOf(ft: Byte): Predictor {
    (a: Byte, b: Byte, c: Byte) => Predicted(ft, a, b, c)
  }

  /** Byte `x - ch` of a row, zero before its first pixel. */
  function Before(row: Bytes, x: nat, ch: nat): Byte
    requires x < |row| + ch
  {
    if x >= ch then row[x - ch] else 0
  }

  /** The first `n` bytes of a row put back together from their differences. */
  function Unfiltered(predict: Predictor, line: Bytes, prev: Bytes, ch: nat, n: nat): (r: Bytes)
    requires n <= |line| && n <= |prev| && ch > 0
    ensures |r| == n
    decreases n
  {
    if n == 0 then []
    else
      var r := Unfiltered(predict, line, prev, ch, n - 1);
      r + [(line[n - 1] + predict(Before(r, n - 1, ch), prev[n - 1], Before(prev, n - 1, ch))) % 256]
  }

  /** The differences the standard stores for a row. */
  function Filtered(predict: Predictor, row: Bytes, prev: Bytes, ch: nat): Bytes
    requires |row| == |prev| && ch > 0
  {
    seq(|row|, x requires 0 <= x < |row| => Difference(predict, row, prev, ch, x))
  }

  function Difference(predict: Predictor, row: Bytes, prev: Bytes, ch: nat, x: nat): Byte
    requires |row| == |prev| && ch > 0 && x < |row|
  {
    (row[x] - predict(Before(row, x, ch), prev[x], Before(prev, x, ch))) % 256
  }

  /** `r` is the one of `a`, `b`, `c` nearest to a + b − c; of equally near ones the first in that order. */
  predicate IsNearest(a: int, b: int, c: int, r: int) {
    var p := a + b - c;
    if Abs(p - a) <= Abs(p - b) && Abs(p - a) <= Abs(p - c) then r == a
    else if Abs(p - b) < Abs(p - a) && Abs(p - b) <= Abs(p - c) then r == b
    else r == c && Abs(p - c) < Abs(p - a) && Abs(p - c) < Abs(p - b)
  }

  /** The predictor is the neighbour nearest to `a + b - c`, and the earlier one in the order a, b, c on a tie. */
  lemma PaethIsNearest(a: Byte, b: Byte, c: Byte, r: int)
    ensures r == Paeth(a, b, c) <==> IsNearest(a, b, c, r)
  {
  }

  lemma AddBack(byte: Byte, guess: Byte)
    ensures ((byte - guess) % 256 + guess) % 256 == byte
  {
  }

  /** Whatever is predicted, as long as it comes from bytes already read. */
  lemma {:induction false} UnfilteringInverts(predict: Predictor, row: Bytes, prev: Bytes, ch: nat, n: nat)
    requires |row| == |prev| && ch > 0 && n <= |row|
    ensures Unfiltered(predict, Filtered(predict, row, prev, ch), prev, ch, n) == row[..n]
    decreases n
  {
    if n == 0 {
    } else {
      UnfilteringInverts(predict, row, prev, ch, n - 1);
      var r := Unfiltered(predict, Filtered(predict, row, prev, ch), prev, ch, n - 1);
      assert Before(r, n - 1, ch) == Before(row, n - 1, ch);
      AddBack(row[n - 1], predict(Before(row, n - 1, ch), prev[n - 1], Before(prev, n - 1, ch)));
      TakeOneMore(row, n - 1);
    }
  }

  /** One scanline as the reader treats it: short lines and unknown filter types included. */
  function Row(ft: Byte, line: Bytes, prev: Bytes, ch: nat): Result<Bytes, Error>
    requires |line| <= |prev| && ch > 0
  {
    if ft == 0 then Ok(line)
    else if ft <= 4 then
      if |line| < |prev| then Err(OutOfRange) else Ok(Unfiltered(PredictorOf(ft), line, prev, ch, |prev|))
    else if |line| + ch < |prev| then Err(OutOfRange)
    else Ok(line)
  }

  /** Puts byte `x` of a scanline back together in place. */
  method UnfilterByte(line: array<Byte>, x: nat, guess: Byte)
    requires x < line.Length
    modifies line
    ensures line[..x + 1] == old(line[..x]) + [(old(line[x]) + guess) % 256]
    ensures line[x + 1..] == old(line[x + 1..])
  {
    line[x] := (line[x] + guess) % 256;
    assert line[..x + 1] == line[..x] + [line[x]];
  }

  lemma OneMoreByte(predict: Predictor, line: Bytes, prev: Bytes, ch: nat, x: nat, done: Bytes)
    requires ch > 0 && x < |line| && x < |prev| && done == Unfiltered(predict, line, prev, ch, x)
    ensures Unfiltered(predict, line, prev, ch, x + 1) ==
      done + [(line[x] + predict(Before(done, x, ch), prev[x], Before(prev, x, ch))) % 256]
  {
  }

  /** Put a scanline back together in place; false when an index runs off its end. */
  method UnfilterRow(line: array<Byte>, ft: Byte, prev: Bytes, ch: nat) returns (ok: bool)
    requires line.Length <= |prev| && ch > 0
    modifies line
    ensures ok <==> Row(ft, old(line[..]), prev, ch).Ok?
    ensures ok ==> line[..] == Row(ft, old(line[..]), prev, ch).value
  {
    if ft == 0 {
      return true;
    }
    ghost var given := line[..];
    var predict := PredictorOf(ft);
    var x := 0;
    while x < |prev|
      invariant x <= |prev|
      invariant ft <= 4 ==> x <= line.Length && line[x..] == given[x..]
      invariant ft <= 4 ==> line[..x] == Unfiltered(predict, given, prev, ch, x)
      invariant ft > 4 ==> line[..] == given && x <= line.Length + ch
    {
      if x >= ch && x - ch >= line.Length {
        return false;
      }
      var a := if x >= ch then line[x - ch] else 0;
      var b := prev[x];
      var c := if x >= ch then prev[x - ch] else 0;
      if ft <= 4 {
        if x >= line.Length {
          return false;
        }
        assert a == Before(line[..x], x, ch) && line[x] == line[x..][0] == given[x];
        OneMoreByte(predict, given, prev, ch, x, line[..x]);
        UnfilterByte(line, x, predict(a, b, c));
        assert given[x..][1..] == given[x + 1..];
      }
      x := x + 1;
    }
    assert ft <= 4 ==> line[..] == line[..x];
    return true;
  }

  // ---- Rows --------------------------------------------------------------------------------------------

  /** The rows read one after the other from `pos`; only a row at the end of the data can be short. */
  function Rows(raw: Bytes, pos: nat, h: nat, prev: Bytes, stride: nat, ch: nat): Result<Bytes, Error>
    requires ch > 0 && (|prev| == stride || |raw| <= pos)
    decreases h
  {
    if h == 0 then Ok([])
    else if |raw| <= pos then Err(OutOfRange)
    else
      match Row(raw[pos], Slice(raw, pos + 1, stride), prev, ch)
      case Err(e) => Err(e)
      case Ok(row) => After(row, Rows(raw, pos + 1 + stride, h - 1, row, stride, ch))
  }

  /** A result with bytes put before it. */
  function After(done: Bytes, r: Result<Bytes, Error>): Result<Bytes, Error> {
    if r.Err? then r else Ok(done + r.value)
  }

  predicate AllOf(rows: seq<Bytes>, n: nat) {
    rows == [] || (|rows[0]| == n && AllOf(rows[1..], n))
  }

  predicate KnownFilters(filters: seq<Byte>) {
    filters == [] || (filters[0] <= 4 && KnownFilters(filters[1..]))
  }

  /** What the standard stores for an image: each row's filter type and differences. */
  function Scanlines(filters: seq<Byte>, rows: seq<Bytes>, prev: Bytes, ch: nat): Bytes
    requires |filters| == |rows| && ch > 0 && AllOf(rows, |prev|)
    decreases |rows|
  {
    if rows == [] then []
    else [filters[0]] + Filtered(PredictorOf(filters[0]), rows[0], prev, ch) + Scanlines(filters[1..], rows[1..], rows[0], ch)
  }

  function Joined(rows: seq<Bytes>): Bytes {
    if rows == [] then [] else rows[0] + Joined(rows[1..])
  }

  lemma SliceOfLine(raw: Bytes, pos: nat, ft: Byte, line: Bytes, rest: Bytes)
    requires pos <= |raw| && raw[pos..] == [ft] + line + rest
    ensures pos + 1 + |line| <= |raw| && raw[pos] == ft
    ensures Slice(raw, pos + 1, |line|) == line
    ensures raw[pos + 1 + |line|..] == rest
  {
    ThreeParts([ft], line, rest);
    SliceOfTail(raw, pos, 1, 1 + |line|);
    TailOfTail(raw, pos, 1 + |line|);
    assert raw[pos] == raw[pos..][0];
  }

  lemma RowInverts(ft: Byte, row: Bytes, prev: Bytes, ch: nat)
    requires |row| == |prev| && ch > 0 && ft <= 4
    ensures Row(ft, Filtered(PredictorOf(ft), row, prev, ch), prev, ch) == Ok(row)
  {
    UnfilteringInverts(PredictorOf(ft), row, prev, ch, |row|);
    assert row[..|row|] == row;
    assert ft == 0 ==> Filtered(PredictorOf(ft), row, prev, ch) == row;
  }

  /** The reader finds the scanlines of an image. */
  predicate ScanlinesAt(raw: Bytes, pos: nat, filters: seq<Byte>, rows: seq<Bytes>, prev: Bytes, ch: nat)
    requires |filters| == |rows| && ch > 0 && AllOf(rows, |prev|)
    decreases |rows|
  {
    rows == [] ||
    (pos < |raw| && raw[pos] == filters[0]
     && Slice(raw, pos + 1, |prev|) == Filtered(PredictorOf(filters[0]), rows[0], prev, ch)
     && ScanlinesAt(raw, pos + 1 + |prev|, filters[1..], rows[1..], rows[0], ch))
  }

  lemma {:induction false} StoredScanlines(raw: Bytes, pos: nat, filters: seq<Byte>, rows: seq<Bytes>, prev: Bytes, ch: nat)
    requires |filters| == |rows| && ch > 0 && pos <= |raw| && AllOf(rows, |prev|)
    requires raw[pos..] == Scanlines(filters, rows, prev, ch)
    ensures ScanlinesAt(raw, pos, filters, rows, prev, ch)
    decreases |rows|
  {
    if rows == [] {
    } else {
      var line := Filtered(PredictorOf(filters[0]), rows[0], prev, ch);
      SliceOfLine(raw, pos, filters[0], line, Scanlines(filters[1..], rows[1..], rows[0], ch));
      StoredScanlines(raw, pos + 1 + |prev|, filters[1..], rows[1..], rows[0], ch);
    }
  }

  /** One turn of the row loop. */
  lemma RowsTurn(raw: Bytes, pos: nat, h: nat, prev: Bytes, ch: nat, ft: Byte, line: Bytes, row: Bytes)
    requires ch > 0 && h > 0 && pos < |raw| && raw[pos] == ft && Slice(raw, pos + 1, |prev|) == line
    requires Row(ft, line, prev, ch) == Ok(row) && |row| == |prev|
    ensures Rows(raw, pos, h, prev, |prev|, ch) == After(row, Rows(raw, pos + 1 + |prev|, h - 1, row, |prev|, ch))
  {
  }

  /** Whatever filter each row was stored with, reading the rows gives the image. */
  lemma {:induction false} RowsInvert(raw: Bytes, pos: nat, filters: seq<Byte>, rows: seq<Bytes>, prev: Bytes, ch: nat)
    requires |filters| == |rows| && ch > 0 && KnownFilters(filters) && AllOf(rows, |prev|)
    requires ScanlinesAt(raw, pos, filters, rows, prev, ch)
    ensures Rows(raw, pos, |rows|, prev, |prev|, ch) == Ok(Joined(rows))
    decreases |rows|
  {
    if rows == [] {
    } else {
      var ft, row := filters[0], rows[0];
      RowInverts(ft, row, prev, ch);
      RowsTurn(raw, pos, |rows|, prev, ch, ft, Filtered(PredictorOf(ft), row, prev, ch), row);
      RowsInvert(raw, pos + 1 + |prev|, filters[1..], rows[1..], row, ch);
    }
  }

  // ---- Chunks ------------------------------------------------------------------------------------------

  /** What one chunk does to the walk: it ends it, or the walk goes on behind it. */
  datatype Turn =
    | Done(result: Result<(Bytes, Option<Header>), Error>)
    | Next(i: nat, idat: Bytes, header: Option<Header>)

  function ChunkTurn(f: Bytes, i: nat, idat: Bytes, header: Option<Header>): (r: Turn)
    requires i < |f|
    ensures r.Next? ==> r.i >= i + 12
  {
    if |f| - i < 4 then Done(Err(BadStruct))
    else
      var ln: nat := Unpacked(f[i..i + 4]);
      var typ, data, next := Slice(f, i + 4, 4), Slice(f, i + 8, ln), i + 8 + ln + 4;
      if IsIhdr(typ) then
        if |data| < 10 then Done(Err(BadStruct)) else Next(next, idat, Some(HeaderOf(data)))
      else if IsIdat(typ) then Next(next, idat + data, header)
      else if IsIend(typ) then Done(Ok((idat, header)))
      else Next(next, idat, header)
  }

  /** The chunk walk from offset `i`: the compressed data collected so far and the last header seen. */
  function Walk(f: Bytes, i: nat, idat: Bytes, header: Option<Header>): Result<(Bytes, Option<Header>), Error>
    decreases |f| - i
  {
    if |f| <= i then Ok((idat, header))
    else
      match ChunkTurn(f, i, idat, header)
      case Done(result) => result
      case Next(next, data, last) => Walk(f, next, data, last)
  }

  function HeaderOf(data: Bytes): Header
    requires |data| >= 10
  {
    Header(Unpacked(data[..4]), Unpacked(data[4..8]), data[9])
  }

  /** A chunk as it is stored; the reader never looks at the check value. */
  datatype Chunk = Chunk(typ: Bytes, data: Bytes, check: Bytes)

  predicate Storable(c: Chunk) {
    |c.typ| == 4 && |c.data| < WORD && |c.check| == 4
  }

  function Stored(c: Chunk): Bytes
    requires Storable(c)
  {
    Packed(|c.data|) + c.typ + c.data + c.check
  }

  predicate AllStorable(cs: seq<Chunk>) {
    cs == [] || (Storable(cs[0]) && AllStorable(cs[1..]))
  }

  function StoredAll(cs: seq<Chunk>): Bytes
    requires AllStorable(cs)
  {
    if cs == [] then [] else Stored(cs[0]) + StoredAll(cs[1..])
  }

  /** Chunks the walk passes over to what follows them. */
  predicate Passed(c: Chunk) {
    Storable(c) && !IsIend(c.typ) && (IsIhdr(c.typ) ==> |c.data| >= 10)
  }

  predicate AllPassed(cs: seq<Chunk>) {
    AllStorable(cs) && (cs == [] || (Passed(cs[0]) && AllPassed(cs[1..])))
  }

  /** The data of the IDAT chunks, in order. */
  function Compressed(cs: seq<Chunk>): Bytes {
    if cs == [] then [] else (if IsIdat(cs[0].typ) then cs[0].data else []) + Compressed(cs[1..])
  }

  function LastHeader(cs: seq<Chunk>, header: Option<Header>): Option<Header>
    requires AllPassed(cs)
    decreases |cs|
  {
    if cs == [] then header
    else LastHeader(cs[1..], if IsIhdr(cs[0].typ) then Some(HeaderOf(cs[0].data)) else header)
  }

  lemma StoredLength(c: Chunk)
    requires Storable(c)
    ensures |Stored(c)| == 8 + |c.data| + 4
  {
  }

  /** Where the parts of a stored chunk are. */
  lemma StoredParts(c: Chunk)
    requires Storable(c)
    ensures Stored(c)[..4] == Packed(|c.data|) && Stored(c)[4..8] == c.typ && Stored(c)[8..8 + |c.data|] == c.data
  {
    ThreeParts(Packed(|c.data|), c.typ, c.data + c.check);
    assert Stored(c) == Packed(|c.data|) + c.typ + (c.data + c.check);
    ThreeParts(Packed(|c.data|) + c.typ, c.data, c.check);
  }

  function EndOf(i: nat, c: Chunk): nat {
    i + 8 + |c.data| + 4
  }

  /** What the walk reads at an offset where a chunk is stored. */
  predicate ChunkAt(f: Bytes, i: nat, c: Chunk) {
    && EndOf(i, c) <= |f|
    && Unpacked(f[i..i + 4]) == |c.data|
    && Slice(f, i + 4, 4) == c.typ
    && Slice(f, i + 8, |c.data|) == c.data
  }

  lemma StoredAt(f: Bytes, i: nat, c: Chunk, rest: Bytes)
    requires Storable(c) && i <= |f| && f[i..] == Stored(c) + rest
    ensures ChunkAt(f, i, c) && f[EndOf(i, c)..] == rest
  {
    var g := Stored(c);
    StoredLength(c);
    StoredParts(c);
    UnpackedPacked(|c.data|);
    TakenFrom(f, i, g, rest, 0, 4);
    TakenFrom(f, i, g, rest, 4, 8);
    TakenFrom(f, i, g, rest, 8, 8 + |c.data|);
    TailOfTail(f, i, |g|);
  }

  lemma TakenFrom(f: Bytes, i: nat, g: Bytes, rest: Bytes, a: nat, b: nat)
    requires i <= |f| && f[i..] == g + rest && a <= b <= |g|
    ensures i + b <= |f| && f[i + a..i + b] == g[a..b]
  {
    SliceOfTail(f, i, a, b);
    assert (g + rest)[a..b] == g[a..b];
  }

  function DataAfter(c: Chunk, idat: Bytes): Bytes {
    if IsIdat(c.typ) then idat + c.data else idat
  }

  function HeaderAfter(c: Chunk, header: Option<Header>): Option<Header>
    requires Passed(c)
  {
    if IsIhdr(c.typ) then Some(HeaderOf(c.data)) else header
  }

  lemma WalkOne(f: Bytes, i: nat, c: Chunk, idat: Bytes, header: Option<Header>)
    requires Passed(c) && ChunkAt(f, i, c)
    ensures Walk(f, i, idat, header) == Walk(f, EndOf(i, c), DataAfter(c, idat), HeaderAfter(c, header))
  {
  }

  /** What a walk over chunks has gathered at their end. */
  function Gathered(cs: seq<Chunk>, idat: Bytes, header: Option<Header>): (Bytes, Option<Header>)
    requires AllPassed(cs)
    decreases |cs|
  {
    if cs == [] then (idat, header)
    else Gathered(cs[1..], DataAfter(cs[0], idat), HeaderAfter(cs[0], header))
  }

  lemma {:induction false} GatheredIs(cs: seq<Chunk>, idat: Bytes, header: Option<Header>)
    requires AllPassed(cs)
    ensures Gathered(cs, idat, header) == (idat + Compressed(cs), LastHeader(cs, header))
    decreases |cs|
  {
    if cs == [] {
      assert idat + [] == idat;
    } else {
      GatheredIs(cs[1..], DataAfter(cs[0], idat), HeaderAfter(cs[0], header));
      CompressedFirst(cs, idat);
    }
  }

  lemma CompressedFirst(cs: seq<Chunk>, idat: Bytes)
    requires cs != []
    ensures idat + Compressed(cs) == DataAfter(cs[0], idat) + Compressed(cs[1..])
  {
    if IsIdat(cs[0].typ) {
      Reassociate(idat, cs[0].data, Compressed(cs[1..]));
    } else {
      assert [] + Compressed(cs[1..]) == Compressed(cs[1..]);
    }
  }

  function EndOfAll(i: nat, cs: seq<Chunk>): nat
    decreases |cs|
  {
    if cs == [] then i else EndOfAll(EndOf(i, cs[0]), cs[1..])
  }

  predicate ChunksAt(f: Bytes, i: nat, cs: seq<Chunk>)
    decreases |cs|
  {
    cs == [] || (ChunkAt(f, i, cs[0]) && ChunksAt(f, EndOf(i, cs[0]), cs[1..]))
  }

  lemma {:induction false} AllStoredAt(f: Bytes, i: nat, cs: seq<Chunk>, tail: Bytes)
    requires AllStorable(cs) && i <= |f| && f[i..] == StoredAll(cs) + tail
    ensures ChunksAt(f, i, cs) && EndOfAll(i, cs) <= |f| && f[EndOfAll(i, cs)..] == tail
    decreases |cs|
  {
    if cs == [] {
      assert [] + tail == tail;
    } else {
      Reassociate(Stored(cs[0]), StoredAll(cs[1..]), tail);
      StoredAt(f, i, cs[0], StoredAll(cs[1..]) + tail);
      AllStoredAt(f, EndOf(i, cs[0]), cs[1..], tail);
    }
  }

  /** The walk gets the same data however it is split over chunks, and whatever stands between them. */
  lemma {:induction false} WalkAll(f: Bytes, i: nat, cs: seq<Chunk>, idat: Bytes, header: Option<Header>)
    requires AllPassed(cs) && ChunksAt(f, i, cs)
    ensures Walk(f, i, idat, header) ==
      Walk(f, EndOfAll(i, cs), Gathered(cs, idat, header).0, Gathered(cs, idat, header).1)
    decreases |cs|
  {
    if cs == [] {
    } else {
      WalkOne(f, i, cs[0], idat, header);
      WalkAll(f, EndOf(i, cs[0]), cs[1..], DataAfter(cs[0], idat), HeaderAfter(cs[0], header));
    }
  }

  /** A file may end after its chunks, or go on with an IEND chunk and anything behind it. */
  ghost predicate Ends(tail: Bytes) {
    tail == [] || exists c, junk :: Storable(c) && IsIend(c.typ) && tail == Stored(c) + junk
  }

  lemma WalkEnds(f: Bytes, i: nat, idat: Bytes, header: Option<Header>)
    requires i <= |f| && Ends(f[i..])
    ensures Walk(f, i, idat, header) == Ok((idat, header))
  {
    if f[i..] != [] {
      var c, junk :| Storable(c) && IsIend(c.typ) && f[i..] == Stored(c) + junk;
      StoredAt(f, i, c, junk);
    }
  }

  // ---- The reader --------------------------------------------------------------------------------------

  /** The bytes from `p` on with every fourth left out. */
  function DropAlpha(s: Bytes, p: nat): Bytes
    decreases |s| - p
  {
    if |s| <= p then [] else Slice(s, p, 3) + DropAlpha(s, p + 4)
  }

  function Zeros(n: nat): Bytes {
    seq(n, _ => 0)
  }

  /** `{2: 3, 6: 4}[ct]` */
  function Channels(header: Option<Header>): Result<nat, Error> {
    if header.None? then Err(BadColourType)
    else if header.value.colourType == 2 then Ok(3)
    else if header.value.colourType == 6 then Ok(4)
    else Err(BadColourType)
  }

  type Unzip = Bytes -> Option<Bytes>

  function Decode(f: Bytes, unzip: Unzip): Result<Image, Error> {
    if Slice(f, 0, 8) != Signature() then Err(NotPng)
    else
      match Walk(f, 8, [], None)
      case Err(e) => Err(e)
      case Ok((idat, header)) => Inflated(unzip(idat), header)
  }

  /** What becomes of the decompressed data. */
  function Inflated(raw: Option<Bytes>, header: Option<Header>): Result<Image, Error> {
    if raw.None? then Err(BadZlib)
    else if Channels(header).Err? then Err(BadColourType)
    else
      var w, ch := header.value.width, Channels(header).value;
      Finished(w, header.value.height, ch, Rows(raw.value, 0, header.value.height, Zeros(w * ch), w * ch, ch))
  }

  function Finished(w: nat, h: nat, ch: nat, rows: Result<Bytes, Error>): Result<Image, Error> {
    match rows
    case Err(e) => Err(e)
    case Ok(bytes) => Ok(Image(w, h, if ch == 4 then DropAlpha(bytes, 0) else bytes))
  }

  method DecodePngRgb(f: Bytes, unzip: Unzip) returns (r: Result<Image, Error>)
    ensures r == Decode(f, unzip)
  {
    if Slice(f, 0, 8) != Signature() {
      return Err(NotPng);
    }
    var walked := WalkChunks(f);
    if walked.Err? {
      return Err(walked.error);
    }
    var (idat, header) := walked.value;
    var raw := unzip(idat);
    if raw.None? {
      return Err(BadZlib);
    }
    var channels := Channels(header);
    if channels.Err? {
      return Err(BadColourType);
    }
    var w, h, ch := header.value.width, header.value.height, channels.value;
    var rows := DecodeRows(raw.value, h, w * ch, ch);
    if rows.Err? {
      return Err(rows.error);
    }
    var out := rows.value;
    if ch == 4 {
      out := DropEveryFourth(out);
    }
    return Ok(Image(w, h, out));
  }

  method WalkChunks(f: Bytes) returns (r: Result<(Bytes, Option<Header>), Error>)
    ensures r == Walk(f, 8, [], None)
  {
    var i: nat, idat, header := 8, [], None;
    ghost var all := Walk(f, i, idat, header);
    while i < |f|
      invariant all == Walk(f, i, idat, header)
      decreases |f| - i
    {
      if |f| - i < 4 {
        return Err(BadStruct);
      }
      var ln: nat := Unpacked(f[i..i + 4]);
      var typ, data := Slice(f, i + 4, 4), Slice(f, i + 8, ln);
      if IsIhdr(typ) {
        if |data| < 10 {
          return Err(BadStruct);
        }
        header := Some(HeaderOf(data));
      } else if IsIdat(typ) {
        idat := idat + data;
      } else if IsIend(typ) {
        return Ok((idat, header));
      }
      i := i + 8 + ln + 4;
    }
    return Ok((idat, header));
  }

  lemma AfterNothing(r: Result<Bytes, Error>, done: Bytes)
    ensures After([], r) == r && After(done, Ok([])) == Ok(done)
  {
    if r.Ok? {
      assert [] + r.value == r.value;
    }
    assert done + [] == done;
  }

  lemma AfterTwice(a: Bytes, b: Bytes, r: Result<Bytes, Error>)
    ensures After(a, After(b, r)) == After(a + b, r)
  {
    if r.Ok? {
      assert a + (b + r.value) == (a + b) + r.value;
    }
  }

  lemma DecodeTurn(all: Result<Bytes, Error>, out: Bytes, raw: Bytes, pos: nat, n: nat, prev: Bytes, stride: nat, ch: nat,
      row: Bytes)
    requires ch > 0 && n > 0 && pos < |raw| && |prev| == stride
    requires all == After(out, Rows(raw, pos, n, prev, stride, ch))
    requires Row(raw[pos], Slice(raw, pos + 1, stride), prev, ch) == Ok(row)
    ensures |row| == stride || |raw| <= pos + 1 + stride
    ensures all == After(out + row, Rows(raw, pos + 1 + stride, n - 1, row, stride, ch))
  {
    AfterTwice(out, row, Rows(raw, pos + 1 + stride, n - 1, row, stride, ch));
  }

  method DecodeRows(raw: Bytes, h: nat, stride: nat, ch: nat) returns (r: Result<Bytes, Error>)
    requires ch > 0
    ensures r == Rows(raw, 0, h, Zeros(stride), stride, ch)
  {
    var out, prev, pos: nat, y: nat := [], Zeros(stride), 0, 0;
    ghost var all := Rows(raw, pos, h, prev, stride, ch);
    AfterNothing(all, []);
    while y < h
      invariant y <= h && (|prev| == stride || |raw| <= pos)
      invariant all == After(out, Rows(raw, pos, h - y, prev, stride, ch))
    {
      if pos >= |raw| {
        return Err(OutOfRange);
      }
      var row := DecodeRow(raw[pos], Slice(raw, pos + 1, stride), prev, ch);
      if row.Err? {
        return row;
      }
      DecodeTurn(all, out, raw, pos, h - y, prev, stride, ch, row.value);
      out, prev, pos, y := out + row.value, row.value, pos + 1 + stride, y + 1;
    }
    AfterNothing(all, out);
    return Ok(out);
  }

  method DecodeRow(ft: Byte, data: Bytes, prev: Bytes, ch: nat) returns (r: Result<Bytes, Error>)
    requires |data| <= |prev| && ch > 0
    ensures r == Row(ft, data, prev, ch)
  {
    var line := new Byte[|data|](i requires 0 <= i < |data| => data[i]);
    assert line[..] == data;
    var ok := UnfilterRow(line, ft, prev, ch);
    return if ok then Ok(line[..]) else Err(OutOfRange);
  }

  method DropEveryFourth(s: Bytes) returns (rgb: Bytes)
    ensures rgb == DropAlpha(s, 0)
  {
    var p: nat := 0;
    rgb := [];
    while p < |s|
      invariant DropAlpha(s, 0) == rgb + DropAlpha(s, p)
      decreases |s| - p
    {
      Reassociate(rgb, Slice(s, p, 3), DropAlpha(s, p + 4));
      rgb := rgb + Slice(s, p, 3);
      p := p + 4;
    }
  }

  // ---- Any layout of a file is read back ---------------------------------------------------------------

  /** Reading gives the image however its rows were filtered and its compressed data split over chunks. */
  lemma DecodeInvertsLayout(cs: seq<Chunk>, tail: Bytes, header: Header, stride: nat, ch: nat, filters: seq<Byte>,
      rows: seq<Bytes>, unzip: Unzip)
    requires AllPassed(cs) && Ends(tail)
    requires LastHeader(cs, None) == Some(header)
    requires Channels(Some(header)) == Ok(ch) && stride == header.width * ch
    requires |rows| == |filters| == header.height && KnownFilters(filters) && AllOf(rows, stride)
    requires unzip(Compressed(cs)) == Some(Scanlines(filters, rows, Zeros(stride), ch))
    ensures Decode(Signature() + StoredAll(cs) + tail, unzip) ==
      Ok(Image(header.width, header.height, if ch == 4 then DropAlpha(Joined(rows), 0) else Joined(rows)))
  {
    WalkLayout(cs, tail);
    var raw := unzip(Compressed(cs));
    InflatedRows(raw, header, stride, ch, filters, rows);
    DecodeWalked(Signature() + StoredAll(cs) + tail, unzip, Compressed(cs), header, raw);
  }

  lemma DecodeWalked(f: Bytes, unzip: Unzip, idat: Bytes, header: Header, raw: Option<Bytes>)
    requires Slice(f, 0, 8) == Signature() && Walk(f, 8, [], None) == Ok((idat, Some(header)))
    requires raw == unzip(idat)
    ensures Decode(f, unzip) == Inflated(raw, Some(header))
  {
  }

  lemma WalkLayout(cs: seq<Chunk>, tail: Bytes)
    requires AllPassed(cs) && Ends(tail)
    ensures var f := Signature() + StoredAll(cs) + tail;
      Slice(f, 0, 8) == Signature() && Walk(f, 8, [], None) == Ok((Compressed(cs), LastHeader(cs, None)))
  {
    var f := Signature() + StoredAll(cs) + tail;
    FileParts(Signature(), StoredAll(cs), tail);
    AllStoredAt(f, 8, cs, tail);
    WalkAll(f, 8, cs, [], None);
    GatheredIs(cs, [], None);
    assert [] + Compressed(cs) == Compressed(cs);
    WalkEnds(f, EndOfAll(8, cs), Compressed(cs), LastHeader(cs, None));
  }

  lemma InflatedRows(raw: Option<Bytes>, header: Header, stride: nat, ch: nat, filters: seq<Byte>, rows: seq<Bytes>)
    requires Channels(Some(header)) == Ok(ch) && stride == header.width * ch
    requires |rows| == |filters| == header.height && KnownFilters(filters) && AllOf(rows, stride)
    requires raw == Some(Scanlines(filters, rows, Zeros(stride), ch))
    ensures Inflated(raw, Some(header)) == Finished(header.width, header.height, ch, Ok(Joined(rows)))
  {
    assert raw.value[0..] == raw.value;
    StoredScanlines(raw.value, 0, filters, rows, Zeros(stride), ch);
    RowsInvert(raw.value, 0, filters, rows, Zeros(stride), ch);
  }

  lemma FileParts(signature: Bytes, body: Bytes, tail: Bytes)
    requires |signature| == 8
    ensures Slice(signature + body + tail, 0, 8) == signature
    ensures (signature + body + tail)[8..] == body + tail
  {
    ThreeParts(signature, body, tail);
    assert signature + body + tail == signature + (body + tail);
  }

  /** Pixels with an alpha byte behind each. */
  function WithAlpha(rgb: Bytes, alphas: Bytes): Bytes
    requires |rgb| == 3 * |alphas|
  {
    if alphas == [] then [] else rgb[..3] + [alphas[0]] + WithAlpha(rgb[3..], alphas[1..])
  }

  /** What is left of an RGBA image is its colours. */
  lemma {:induction false} DropAlphaInverts(s: Bytes, p: nat, rgb: Bytes, alphas: Bytes)
    requires |rgb| == 3 * |alphas| && p <= |s| && s[p..] == WithAlpha(rgb, alphas)
    ensures DropAlpha(s, p) == rgb
    decreases |rgb|
  {
    if alphas == [] {
    } else {
      var rest := WithAlpha(rgb[3..], alphas[1..]);
      ThreeParts(rgb[..3], [alphas[0]], rest);
      SliceOfTail(s, p, 0, 3);
      TailOfTail(s, p, 4);
      DropAlphaInverts(s, p + 4, rgb[3..], alphas[1..]);
      assert rgb[..3] + rgb[3..] == rgb;
    }
  }

  // ---- The standard, byte by byte ----------------------------------------------------------------------

  /** The difference to the nearest neighbour. */
  ghost predicate NearestByte(stored: int, byte: int, a: int, b: int, c: int) {
    exists r: int :: IsNearest(a, b, c, r) && stored == (byte - r) % 256
  }

  lemma NearestByteIs(stored: int, byte: Byte, a: Byte, b: Byte, c: Byte)
    ensures NearestByte(stored, byte, a, b, c) <==> stored == (byte - Paeth(a, b, c)) % 256
  {
    var nearest: int := Paeth(a, b, c);
    PaethIsNearest(a, b, c, nearest);
    if NearestByte(stored, byte, a, b, c) {
      var r: int :| IsNearest(a, b, c, r) && stored == (byte - r) % 256;
      PaethIsNearest(a, b, c, r);
    }
  }

  /** What section 6 of RFC 2083 stores for a byte with these neighbours, under the filter types 0 to 4. */
  ghost predicate StandardOf(ft: int, stored: int, byte: int, left: int, above: int, corner: int) {
    || (ft == 0 && stored == byte)
    || (ft == 1 && stored == (byte - left) % 256)
    || (ft == 2 && stored == (byte - above) % 256)
    || (ft == 3 && stored == (byte - (left + above) / 2) % 256)
    || (ft == 4 && NearestByte(stored, byte, left, above, corner))
  }

  /** The neighbours of byte `x` are those one pixel to the left, above, and above left; zero outside the row. */
  ghost predicate StandardByte(ft: int, stored: int, row: Bytes, prev: Bytes, ch: nat, x: nat)
    requires |row| == |prev| && x < |row| && ch > 0
  {
    StandardOf(ft, stored, row[x], if x < ch then 0 else row[x - ch], prev[x], if x < ch then 0 else prev[x - ch])
  }

  ghost predicate StandardRow(ft: int, line: Bytes, row: Bytes, prev: Bytes, ch: nat) {
    && |line| == |row| == |prev| && ch > 0
    && forall x :: 0 <= x < |row| ==> StandardByte(ft, line[x], row, prev, ch, x)
  }

  /** From `pos` on the data holds the rows, each behind its filter type. */
  ghost predicate StandardImage(raw: Bytes, pos: nat, rows: seq<Bytes>, prev: Bytes, ch: nat)
    decreases |rows|
  {
    rows == [] ||
    (pos + 1 + |prev| <= |raw|
     && StandardRow(raw[pos], raw[pos + 1..pos + 1 + |prev|], rows[0], prev, ch)
     && StandardImage(raw, pos + 1 + |prev|, rows[1..], rows[0], ch))
  }

  lemma StandardIsPredicted(ft: Byte, stored: Byte, byte: Byte, a: Byte, b: Byte, c: Byte)
    ensures StandardOf(ft, stored, byte, a, b, c) <==> ft <= 4 && stored == (byte - Predicted(ft, a, b, c)) % 256
  {
    NearestByteIs(stored, byte, a, b, c);
  }

  /** The standard's byte is the difference to what the reader predicts, and every byte has one. */
  lemma StandardIsDifference(ft: Byte, stored: Byte, row: Bytes, prev: Bytes, ch: nat, x: nat)
    requires |row| == |prev| && x < |row| && ch > 0
    ensures StandardByte(ft, stored, row, prev, ch, x) <==> ft <= 4 && stored == Difference(PredictorOf(ft), row, prev, ch, x)
  {
    StandardIsPredicted(ft, stored, row[x], Before(row, x, ch), prev[x], Before(prev, x, ch));
  }

  lemma StandardRowIsRead(ft: Byte, line: Bytes, row: Bytes, prev: Bytes, ch: nat)
    requires StandardRow(ft, line, row, prev, ch)
    ensures Row(ft, line, prev, ch) == Ok(row)
  {
    if row == [] {
      assert line == [];
      return;
    }
    var filtered := Filtered(PredictorOf(ft), row, prev, ch);
    forall x | 0 <= x < |row| ensures line[x] == filtered[x] && ft <= 4 {
      StandardIsDifference(ft, line[x], row, prev, ch, x);
    }
    assert line == filtered;
    assert StandardByte(ft, line[0], row, prev, ch, 0);
    RowInverts(ft, row, prev, ch);
  }

  /** Rows stored as the standard says are read back. */
  lemma {:induction false} StandardImageIsRead(raw: Bytes, pos: nat, rows: seq<Bytes>, prev: Bytes, ch: nat)
    requires ch > 0 && StandardImage(raw, pos, rows, prev, ch)
    ensures Rows(raw, pos, |rows|, prev, |prev|, ch) == Ok(Joined(rows))
    decreases |rows|
  {
    if rows == [] {
    } else {
      var line := raw[pos + 1..pos + 1 + |prev|];
      StandardRowIsRead(raw[pos], line, rows[0], prev, ch);
      RowsTurn(raw, pos, |rows|, prev, ch, raw[pos], line, rows[0]);
      StandardImageIsRead(raw, pos + 1 + |prev|, rows[1..], rows[0], ch);
    }
  }

  /** The names of chunks, the signature and the places of the header's numbers. */
  lemma LayoutIsStandard(typ: Bytes, data: Bytes)
    ensures IsIhdr(typ) <==> typ == [73, 72, 68, 82]
    ensures IsIdat(typ) <==> typ == [73, 68, 65, 84]
    ensures IsIend(typ) <==> typ == [73, 69, 78, 68]
    ensures Signature() == [137, 80, 78, 71, 13, 10, 26, 10]
    ensures |data| >= 10 ==>
      var h := HeaderOf(data);
      h.width == BigEndian(data, 0) && h.height == BigEndian(data, 4) && h.colourType == data[9]
  {
  }

  /**
    A file whose header says RGB or RGBA, and whose compressed data, joined over its chunks, holds the rows
    as the standard stores them, is read as its size and its colours.
   */
  lemma DecodeReadsStandard(cs: seq<Chunk>, tail: Bytes, w: Word, h: Word, ct: Byte, stride: nat, ch: nat, raw: Bytes,
      rows: seq<Bytes>, rgb: Bytes, alphas: Bytes, unzip: Unzip)
    requires AllPassed(cs) && Ends(tail) && LastHeader(cs, None) == Some(Header(w, h, ct))
    requires unzip(Compressed(cs)) == Some(raw) && |rows| == h && stride == w * ch
    requires (ct == 2 && ch == 3) || (ct == 6 && ch == 4)
    requires StandardImage(raw, 0, rows, Zeros(stride), ch)
    requires ct == 2 ==> Joined(rows) == rgb
    requires ct == 6 ==> |rgb| == 3 * |alphas| && Joined(rows) == WithAlpha(rgb, alphas)
    ensures Decode([137, 80, 78, 71, 13, 10, 26, 10] + StoredAll(cs) + tail, unzip) == Ok(Image(w, h, rgb))
  {
    var header := Header(w, h, ct);
    WalkLayout(cs, tail);
    DecodeWalked(Signature() + StoredAll(cs) + tail, unzip, Compressed(cs), header, Some(raw));
    StandardImageIsRead(raw, 0, rows, Zeros(stride), ch);
    InflatedStandard(raw, header, stride, ch, Joined(rows));
    if ct == 6 {
      assert Joined(rows)[0..] == Joined(rows);
      DropAlphaInverts(Joined(rows), 0, rgb, alphas);
    }
  }

  /** What does not begin with the eight bytes of the signature is refused. */
  lemma SignatureIsChecked(f: Bytes, unzip: Unzip)
    requires |f| < 8 || f[..8] != [137, 80, 78, 71, 13, 10, 26, 10]
    ensures Decode(f, unzip) == Err(NotPng)
  {
    if |f| < 8 {
      assert |Slice(f, 0, 8)| < 8;
    }
  }

  /** A file that cannot be decompressed, or whose last header says neither RGB nor RGBA, is refused. */
  lemma OthersAreRefused(cs: seq<Chunk>, tail: Bytes, unzip: Unzip, f: Bytes, header: Option<Header>)
    requires AllPassed(cs) && Ends(tail) && f == Signature() + StoredAll(cs) + tail && header == LastHeader(cs, None)
    ensures unzip(Compressed(cs)).None? ==> Decode(f, unzip) == Err(BadZlib)
    ensures unzip(Compressed(cs)).Some? && (header.None? || header.value.colourType !in {2, 6}) ==>
      Decode(f, unzip) == Err(BadColourType)
  {
    WalkLayout(cs, tail);
    FileParts(Signature(), StoredAll(cs), tail);
  }

  /** Filter types above 4 leave a row as it is. */
  lemma UnknownFilterIsKept(ft: Byte, line: Bytes, prev: Bytes, ch: nat)
    requires ft > 4 && |line| == |prev| && ch > 0
    ensures Row(ft, line, prev, ch) == Ok(line)
  {
  }

  lemma InflatedStandard(raw: Bytes, header: Header, stride: nat, ch: nat, bytes: Bytes)
    requires stride == header.width * ch
    requires (header.colourType == 2 && ch == 3) || (header.colourType == 6 && ch == 4)
    requires Rows(raw, 0, header.height, Zeros(stride), stride, ch) == Ok(bytes)
    ensures Inflated(Some(raw), Some(header)) ==
      Ok(Image(header.width, header.height, if ch == 4 then DropAlpha(bytes, 0) else bytes))
  {
  }

  // ---- The writer --------------------------------------------------------------------------------------

  type Zip = Bytes -> Bytes

  type Crc = Bytes -> Word

  /** `n` rows of the pixels from `start` on, each behind a zero filter type. */
  function RawRows(px: Bytes, start: nat, n: nat, stride: nat): Bytes
    decreases n
  {
    if n == 0 then [] else [0] + Slice(px, start, stride) + RawRows(px, start + stride, n - 1, stride)
  }

  function Checked(typ: Bytes, data: Bytes, crc: Crc): Chunk {
    Chunk(typ, data, Packed(crc(typ + data)))
  }

  /** What the writer puts in a file; numbers that do not fit 32 bits make `struct.pack` raise. */
  function Written(w: int, h: int, px: Bytes, zip: Zip, crc: Crc): Result<Bytes, Error> {
    if !(0 <= w < WORD && 0 <= h < WORD) then Err(BadStruct)
    else
      var stride := w * 3;
      var idat := zip(RawRows(px, 0, h, stride));
      if |idat| >= WORD then Err(BadStruct)
      else
        var ihdr := Packed(w) + Packed(h) + [8, 2, 0, 0, 0];
        Ok(Signature() + Stored(Checked(Ihdr(), ihdr, crc)) + Stored(Checked(Idat(), idat, crc))
          + Stored(Checked(Iend(), [], crc)))
  }

  method FrameRows(px: Bytes, h: nat, stride: nat) returns (raw: Bytes)
    ensures raw == RawRows(px, 0, h, stride)
  {
    raw := [];
    var y := 0;
    while y < h
      invariant y <= h && RawRows(px, 0, h, stride) == raw + RawRows(px, stride * y, h - y, stride)
    {
      ghost var line, rest := Slice(px, stride * y, stride), RawRows(px, stride * y + stride, h - y - 1, stride);
      assert raw + ([0] + line + rest) == raw + [0] + line + rest;
      MulSucc(stride, y);
      raw := raw + [0];
      raw := raw + Slice(px, y * stride, stride);
      y := y + 1;
    }
  }

  method WritePngRgb(w: int, h: int, px: Bytes, zip: Zip, crc: Crc) returns (r: Result<Bytes, Error>)
    ensures r == Written(w, h, px, zip, crc)
  {
    if !(0 <= w < WORD && 0 <= h < WORD) {
      return Err(BadStruct);
    }
    var ihdr := Packed(w) + Packed(h) + [8, 2, 0, 0, 0];
    var raw := FrameRows(px, h, w * 3);
    var idat := zip(raw);
    if |idat| >= WORD {
      return Err(BadStruct);
    }
    return Ok(Signature() + Stored(Checked(Ihdr(), ihdr, crc)) + Stored(Checked(Idat(), idat, crc))
      + Stored(Checked(Iend(), [], crc)));
  }

  // ---- Reading what was written ------------------------------------------------------------------------

  /** The length of `n` rows. */
  function SizeOf(n: nat, stride: nat): nat {
    if n == 0 then 0 else SizeOf(n - 1, stride) + stride
  }

  lemma {:induction false} SizeIs(n: nat, stride: nat)
    ensures SizeOf(n, stride) == stride * n
  {
    if n == 0 {
    } else {
      SizeIs(n - 1, stride);
      MulSucc(stride, n - 1);
    }
  }

  /** The pixels of `n` rows from `start` on, as far as there are any. */
  function PixelsFrom(px: Bytes, start: nat, n: nat, stride: nat): Bytes {
    Slice(px, start, SizeOf(n, stride))
  }

  lemma PixelsStep(px: Bytes, start: nat, n: nat, stride: nat)
    requires n > 0 && start + stride <= |px|
    ensures Slice(px, start, stride) + PixelsFrom(px, start + stride, n - 1, stride) == PixelsFrom(px, start, n, stride)
  {
  }

  /** The reader finds `n` lines of the pixels behind zero filter types. */
  predicate LinesAt(raw: Bytes, pos: nat, n: nat, px: Bytes, start: nat, stride: nat)
    decreases n
  {
    n == 0 || (LineAt(raw, pos, px, start, stride) && LinesAt(raw, pos + 1 + stride, n - 1, px, start + stride, stride))
  }

  predicate LineAt(raw: Bytes, pos: nat, px: Bytes, start: nat, stride: nat) {
    pos < |raw| && raw[pos] == 0 && Slice(raw, pos + 1, stride) == Slice(px, start, stride)
  }

  lemma WrittenLine(raw: Bytes, pos: nat, line: Bytes, rest: Bytes, stride: nat)
    requires pos <= |raw| && raw[pos..] == [0] + line + rest
    requires |line| == stride || (|line| < stride && rest == [])
    ensures pos < |raw| && raw[pos] == 0 && Slice(raw, pos + 1, stride) == line
    ensures |line| == stride ==> pos + 1 + stride <= |raw| && raw[pos + 1 + stride..] == rest
  {
    SliceOfLine(raw, pos, 0, line, rest);
  }

  /** Lines written one after the other are found; only the last of them may lack pixels. */
  lemma {:induction false} WrittenLines(px: Bytes, start: nat, n: nat, raw: Bytes, pos: nat, stride: nat)
    requires start <= |px| && (n > 0 ==> start + SizeOf(n - 1, stride) <= |px|)
    requires pos <= |raw| && raw[pos..] == RawRows(px, start, n, stride)
    ensures LinesAt(raw, pos, n, px, start, stride)
    decreases n
  {
    if n == 0 {
    } else {
      var line, rest := Slice(px, start, stride), RawRows(px, start + stride, n - 1, stride);
      WrittenLine(raw, pos, line, rest, stride);
      if n > 1 {
        WrittenLines(px, start + stride, n - 1, raw, pos + 1 + stride, stride);
      }
    }
  }

  /** A line with filter type zero is taken as it is. */
  lemma PlainRow(raw: Bytes, pos: nat, n: nat, prev: Bytes, px: Bytes, start: nat, stride: nat, ch: nat, line: Bytes)
    requires ch > 0 && n > 0 && |prev| == stride && LineAt(raw, pos, px, start, stride) && line == Slice(px, start, stride)
    ensures |line| == stride || |raw| <= pos + 1 + stride
    ensures Rows(raw, pos, n, prev, stride, ch) == After(line, Rows(raw, pos + 1 + stride, n - 1, line, stride, ch))
  {
  }

  lemma AfterPixels(px: Bytes, start: nat, n: nat, stride: nat, line: Bytes)
    requires n > 0 && start + stride <= |px| && line == Slice(px, start, stride)
    ensures After(line, Ok(PixelsFrom(px, start + stride, n - 1, stride))) == Ok(PixelsFrom(px, start, n, stride))
  {
    PixelsStep(px, start, n, stride);
  }

  lemma LastPixels(px: Bytes, start: nat, stride: nat, line: Bytes)
    requires line == Slice(px, start, stride)
    ensures After(line, Ok([])) == Ok(PixelsFrom(px, start, 1, stride))
  {
    AfterNothing(Ok([]), line);
    assert SizeOf(0, stride) == 0;
  }

  /** Lines that are found are read as the pixels they are. */
  lemma {:induction false} PlainRows(px: Bytes, start: nat, n: nat, raw: Bytes, pos: nat, prev: Bytes, stride: nat, ch: nat)
    requires ch > 0 && |prev| == stride && start <= |px| && (n > 0 ==> start + SizeOf(n - 1, stride) <= |px|)
    requires LinesAt(raw, pos, n, px, start, stride)
    ensures Rows(raw, pos, n, prev, stride, ch) == Ok(PixelsFrom(px, start, n, stride))
    decreases n
  {
    if n > 0 {
      var line := Slice(px, start, stride);
      PlainRow(raw, pos, n, prev, px, start, stride, ch, line);
      if n > 1 {
        PlainRows(px, start + stride, n - 1, raw, pos + 1 + stride, line, stride, ch);
        AfterPixels(px, start, n, stride, line);
      } else {
        LastPixels(px, start, stride, line);
      }
    } else {
      assert PixelsFrom(px, start, 0, stride) == [];
    }
  }

  lemma {:induction false} RawLength(px: Bytes, start: nat, n: nat, stride: nat)
    ensures |RawRows(px, start, n, stride)| == n + Min(start + stride * n, |px|) - Min(start, |px|)
    decreases n
  {
    if n == 0 {
    } else {
      MulSucc(stride, n - 1);
      RawLength(px, start + stride, n - 1, stride);
    }
  }

  /** Reading rows takes a filter type for each and all the bytes of each but the last. */
  lemma {:induction false} RowsNeed(raw: Bytes, pos: nat, h: nat, prev: Bytes, stride: nat, ch: nat)
    requires ch > 0 && h > 0 && (|prev| == stride || |raw| <= pos)
    ensures Rows(raw, pos, h, prev, stride, ch).Ok? ==> pos + (h - 1) * (stride + 1) < |raw|
    ensures Rows(raw, pos, h, prev, stride, ch).Err? ==> Rows(raw, pos, h, prev, stride, ch) == Err(OutOfRange)
    decreases h
  {
    if pos < |raw| && h > 1 {
      var row := Row(raw[pos], Slice(raw, pos + 1, stride), prev, ch);
      if row.Ok? {
        RowsNeed(raw, pos + 1 + stride, h - 1, row.value, stride, ch);
        MulSucc(stride + 1, h - 2);
      }
    }
  }

  /** All the outcomes of reading back the rows of an image. */
  lemma ReadRows(px: Bytes, h: nat, stride: nat, ch: nat)
    requires ch > 0
    ensures Rows(RawRows(px, 0, h, stride), 0, h, Zeros(stride), stride, ch) ==
      if |px| < (h - 1) * stride then Err(OutOfRange) else Ok(Slice(px, 0, h * stride))
  {
    var raw := RawRows(px, 0, h, stride);
    MulSucc(stride, h - 1);
    if |px| < (h - 1) * stride {
      RowsNeed(raw, 0, h, Zeros(stride), stride, ch);
      RawLength(px, 0, h, stride);
      assert (h - 1) * (stride + 1) == (h - 1) * stride + h - 1;
    } else {
      assert raw[0..] == raw;
      SizeIs(h, stride);
      if h > 0 {
        SizeIs(h - 1, stride);
      }
      WrittenLines(px, 0, h, raw, 0, stride);
      PlainRows(px, 0, h, raw, 0, Zeros(stride), stride, ch);
    }
  }

  ghost predicate Inverse(zip: Zip, unzip: Unzip) {
    forall x :: unzip(zip(x)) == Some(x)
  }

  lemma WalkWritten(w: Word, h: Word, px: Bytes, zip: Zip, crc: Crc)
    requires Written(w, h, px, zip, crc).Ok?
    ensures var f := Written(w, h, px, zip, crc).value;
      && Slice(f, 0, 8) == Signature()
      && Walk(f, 8, [], None) == Ok((zip(RawRows(px, 0, h, w * 3)), Some(Header(w, h, 2))))
  {
    var ihdr := Packed(w) + Packed(h) + [8, 2, 0, 0, 0];
    var idat := zip(RawRows(px, 0, h, w * 3));
    HeaderRead(w, h, ihdr);
    WrittenLayout(Checked(Ihdr(), ihdr, crc), Checked(Idat(), idat, crc), Checked(Iend(), [], crc));
  }

  /** A header, one chunk of data and the end are one of the layouts. */
  lemma WrittenLayout(c0: Chunk, c1: Chunk, c2: Chunk)
    requires Storable(c0) && Storable(c1) && Storable(c2)
    requires IsIhdr(c0.typ) && |c0.data| >= 10 && IsIdat(c1.typ) && IsIend(c2.typ)
    ensures var f := Signature() + Stored(c0) + Stored(c1) + Stored(c2);
      Slice(f, 0, 8) == Signature() && Walk(f, 8, [], None) == Ok((c1.data, Some(HeaderOf(c0.data))))
  {
    var cs := [c0, c1];
    TwoChunks(c0, c1, cs);
    assert Stored(c2) == Stored(c2) + [];
    WalkLayout(cs, Stored(c2));
    Reassociate(Signature(), Stored(c0), Stored(c1));
  }

  lemma TwoChunks(c0: Chunk, c1: Chunk, cs: seq<Chunk>)
    requires cs == [c0, c1] && Storable(c0) && Storable(c1)
    requires IsIhdr(c0.typ) && |c0.data| >= 10 && IsIdat(c1.typ)
    ensures AllPassed(cs) && StoredAll(cs) == Stored(c0) + Stored(c1)
    ensures Compressed(cs) == c1.data && LastHeader(cs, None) == Some(HeaderOf(c0.data))
  {
    var last, none: seq<Chunk> := [c1], [];
    assert AllPassed(none) && AllStorable(none);
    assert cs[1..] == last && last[1..] == none;
    assert StoredAll(last) == Stored(c1) && Compressed(last) == c1.data;
    assert AllPassed(last) && LastHeader(last, Some(HeaderOf(c0.data))) == Some(HeaderOf(c0.data));
  }

  lemma HeaderRead(w: Word, h: Word, ihdr: Bytes)
    requires ihdr == Packed(w) + Packed(h) + [8, 2, 0, 0, 0]
    ensures HeaderOf(ihdr) == Header(w, h, 2)
  {
    UnpackedPacked(w);
    UnpackedPacked(h);
    assert ihdr[..4] == Packed(w) && ihdr[4..8] == Packed(h);
  }

  /** Reading a written file gives the pixels back exactly when only the last row lacks any and none are left over. */
  lemma WriteThenRead(w: int, h: int, stride: int, px: Bytes, zip: Zip, unzip: Unzip, crc: Crc)
    requires Inverse(zip, unzip) && Written(w, h, px, zip, crc).Ok? && stride == w * 3
    ensures Decode(Written(w, h, px, zip, crc).value, unzip) ==
      if |px| < (h - 1) * stride then Err(OutOfRange) else Ok(Image(w, h, Slice(px, 0, h * stride)))
    ensures Decode(Written(w, h, px, zip, crc).value, unzip) == Ok(Image(w, h, px)) <==>
      (h - 1) * stride <= |px| <= h * stride
  {
    WalkWritten(w, h, px, zip, crc);
    var idat := zip(RawRows(px, 0, h, stride));
    assert unzip(idat) == Some(RawRows(px, 0, h, stride));
    InflatedWritten(w, h, stride, px);
    WholeSlice(px, h * stride);
  }

  lemma WholeSlice(px: Bytes, n: nat)
    ensures Slice(px, 0, n) == px <==> |px| <= n
  {
  }

  lemma InflatedWritten(w: Word, h: Word, stride: nat, px: Bytes)
    requires stride == w * 3
    ensures Inflated(Some(RawRows(px, 0, h, stride)), Some(Header(w, h, 2))) ==
      if |px| < (h - 1) * stride then Err(OutOfRange) else Ok(Image(w, h, Slice(px, 0, h * stride)))
  {
    ReadRows(px, h, stride, 3);
  }
}
