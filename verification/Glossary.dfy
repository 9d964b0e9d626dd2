/**
  server/src/glossary.rs, normalisation half, and the merge order of `glossary_import` in
  server/src/api.rs. Unicode lower-casing is a parameter.
 */
module Glossary {
  import opened Wrappers
  import opened Text
  import opened Sequences
  import opened GlossaryCsv

  /** Cap on the term pairs injected into one translation prompt. */
  const MAX_INJECTED := 50

  datatype Defect = MissingLanguage | LanguageTooLong | SameLanguage | EmptyTerm | TermTooLong

  datatype GlossaryError = BadEntry(number: nat, defect: Defect) | TooManyEntries(max: nat)

  datatype Key = Key(sourceLang: string, targetLang: string, sourceTerm: string)

  function KeyOf(e: NewEntry): Key { Key(e.sourceLang, e.targetLang, e.sourceTerm) }

  /** `str::len`: the number of UTF-8 bytes. */
  function Utf8Length(s: string): nat {
    if s == "" then 0 else Utf8Width(s[0]) + Utf8Length(s[1..])
  }

  function Utf8Width(c: char): nat {
    if c as int < 0x80 then 1 else if c as int < 0x800 then 2 else if c as int < 0x1_0000 then 3 else 4
  }

  /** The trimmed and lower-cased form of a row. */
  function Clean(e: NewEntry, lower: string -> string): NewEntry {
    NewEntry(lower(Trim(e.sourceLang)), lower(Trim(e.targetLang)), Trim(e.sourceTerm), Trim(e.targetTerm))
  }

  /** The first complaint about a clean row, in the order the checks are made. */
  function DefectOf(e: NewEntry): Option<Defect> {
    if e.sourceLang == "" || e.targetLang == "" then Some(MissingLanguage)
    else if Utf8Length(e.sourceLang) > 10 || Utf8Length(e.targetLang) > 10 then Some(LanguageTooLong)
    else if e.sourceLang == e.targetLang then Some(SameLanguage)
    else if e.sourceTerm == "" || e.targetTerm == "" then Some(EmptyTerm)
    else if |e.sourceTerm| > 200 || |e.targetTerm| > 200 then Some(TermTooLong)
    else None
  }

  function CleanAll(raw: seq<NewEntry>, lower: string -> string): seq<NewEntry> {
    Map((e: NewEntry) => Clean(e, lower), raw)
  }

  /** Some row of `rows` has key `k`. */
  predicate HasKey(rows: seq<NewEntry>, k: Key) {
    exists i :: 0 <= i < |rows| && KeyOf(rows[i]) == k
  }

  /** The rows whose key is not used again further down, in their order. */
  function LastOfEachKey(rows: seq<NewEntry>): seq<NewEntry> {
    if rows == [] then []
    else if HasKey(rows[1..], KeyOf(rows[0])) then LastOfEachKey(rows[1..])
    else [rows[0]] + LastOfEachKey(rows[1..])
  }

  predicate Sound(rows: seq<NewEntry>) {
    forall i :: 0 <= i < |rows| ==> DefectOf(rows[i]).None?
  }

  /** The number of rows in front of the first defective one. */
  function SoundPrefix(rows: seq<NewEntry>): (n: nat)
    ensures n <= |rows| && Sound(rows[..n])
    ensures n < |rows| ==> DefectOf(rows[n]).Some?
  {
    if rows == [] || DefectOf(rows[0]).Some? then 0
    else
      var n := SoundPrefix(rows[1..]);
      assert rows[..n + 1] == [rows[0]] + rows[1..][..n];
      n + 1
  }

  /** The outcome of normalising `raw`. */
  function Normalized(raw: seq<NewEntry>, max: nat, lower: string -> string): Result<seq<NewEntry>, GlossaryError> {
    var cleaned := CleanAll(raw, lower);
    var n := SoundPrefix(cleaned);
    var kept := LastOfEachKey(cleaned);
    if n < |cleaned| then Err(BadEntry(n + 1, DefectOf(cleaned[n]).value))
    else if |kept| > max then Err(TooManyEntries(max))
    else Ok(kept)
  }

  method NormalizeEntries(raw: seq<NewEntry>, max: nat, lower: string -> string)
    returns (r: Result<seq<NewEntry>, GlossaryError>)
    ensures r == Normalized(raw, max, lower)
  {
    var cleaned: seq<NewEntry> := [];
    for i := 0 to |raw|
      invariant cleaned == CleanAll(raw, lower)[..i] && Sound(cleaned)
    {
      var e := Clean(raw[i], lower);
      assert e == CleanAll(raw, lower)[i];
      TakeOneMore(CleanAll(raw, lower), i);
      var defect := DefectOf(e);
      if defect.Some? {
        FirstDefectDecides(raw, max, lower, i);
        return Err(BadEntry(i + 1, defect.value));
      }
      SoundSnoc(cleaned, e);
      cleaned := cleaned + [e];
    }
    assert cleaned == CleanAll(raw, lower);
    SizeDecides(raw, max, lower);
    var deduped := DedupeBackwards(cleaned);
    if |deduped| > max {
      return Err(TooManyEntries(max));
    }
    return Ok(deduped);
  }

  lemma SoundSnoc(rows: seq<NewEntry>, e: NewEntry)
    requires Sound(rows) && DefectOf(e).None?
    ensures Sound(rows + [e])
  {
  }

  lemma FirstDefectDecides(raw: seq<NewEntry>, max: nat, lower: string -> string, i: nat)
    requires i < |raw| && Sound(CleanAll(raw, lower)[..i]) && DefectOf(CleanAll(raw, lower)[i]).Some?
    ensures Normalized(raw, max, lower) == Err(BadEntry(i + 1, DefectOf(CleanAll(raw, lower)[i]).value))
  {
    SoundPrefixIs(CleanAll(raw, lower), i);
  }

  lemma SizeDecides(raw: seq<NewEntry>, max: nat, lower: string -> string)
    requires Sound(CleanAll(raw, lower))
    ensures var kept := LastOfEachKey(CleanAll(raw, lower));
      Normalized(raw, max, lower) == if |kept| > max then Err(TooManyEntries(max)) else Ok(kept)
  {
    var cleaned := CleanAll(raw, lower);
    assert cleaned[..|cleaned|] == cleaned;
    SoundPrefixIs(cleaned, |cleaned|);
  }

  lemma SoundPrefixIs(rows: seq<NewEntry>, n: nat)
    requires n <= |rows| && Sound(rows[..n])
    requires n < |rows| ==> DefectOf(rows[n]).Some?
    ensures SoundPrefix(rows) == n
  {
    var m := SoundPrefix(rows);
    assert forall i :: 0 <= i < n ==> rows[..n][i] == rows[i];
    assert forall i :: 0 <= i < m ==> rows[..m][i] == rows[i];
  }

  /** Walks backwards keeping the first row seen of each key, then restores the order. */
  method DedupeBackwards(cleaned: seq<NewEntry>) returns (deduped: seq<NewEntry>)
    ensures deduped == LastOfEachKey(cleaned)
  {
    var seen: set<Key> := {};
    var backwards: seq<NewEntry> := [];
    var i := |cleaned|;
    while i > 0
      invariant 0 <= i <= |cleaned|
      invariant forall k :: k in seen <==> HasKey(cleaned[i..], k)
      invariant Reversed(backwards) == LastOfEachKey(cleaned[i..])
    {
      i := i - 1;
      var e := cleaned[i];
      assert cleaned[i..][0] == e && cleaned[i..][1..] == cleaned[i + 1..];
      HasKeyCons(e, cleaned[i + 1..]);
      assert cleaned[i..] == [e] + cleaned[i + 1..];
      if KeyOf(e) !in seen {
        backwards := backwards + [e];
      }
      seen := seen + {KeyOf(e)};
    }
    assert cleaned[0..] == cleaned;
    deduped := Reversed(backwards);
  }

  lemma HasKeyCons(e: NewEntry, rows: seq<NewEntry>)
    ensures forall k :: HasKey([e] + rows, k) <==> k == KeyOf(e) || HasKey(rows, k)
  {
    forall k
      ensures HasKey([e] + rows, k) <==> k == KeyOf(e) || HasKey(rows, k)
    {
      if k == KeyOf(e) {
        assert ([e] + rows)[0] == e;
      }
      if HasKey(rows, k) {
        var i :| 0 <= i < |rows| && KeyOf(rows[i]) == k;
        assert ([e] + rows)[i + 1] == rows[i];
      }
    }
  }

  // ---- Last wins is map overwrite ----------------------------------------------------------------

  /** The rows as a lookup table filled from the top: a later row overwrites an earlier one. */
  function Table(rows: seq<NewEntry>): map<Key, NewEntry> {
    if rows == [] then map[]
    else Table(rows[..|rows| - 1])[KeyOf(rows[|rows| - 1]) := rows[|rows| - 1]]
  }

  predicate DistinctKeys(rows: seq<NewEntry>) {
    forall i, j :: 0 <= i < j < |rows| ==> KeyOf(rows[i]) != KeyOf(rows[j])
  }

  /** The rows of `rows` whose key does not occur in `other`, in their order. */
  function Without(rows: seq<NewEntry>, other: seq<NewEntry>): seq<NewEntry> {
    if rows == [] then []
    else if HasKey(other, KeyOf(rows[0])) then Without(rows[1..], other)
    else [rows[0]] + Without(rows[1..], other)
  }

  lemma HasKeyConcat(a: seq<NewEntry>, b: seq<NewEntry>, k: Key)
    ensures HasKey(a + b, k) <==> HasKey(a, k) || HasKey(b, k)
  {
    if HasKey(a, k) {
      var i :| 0 <= i < |a| && KeyOf(a[i]) == k;
      assert (a + b)[i] == a[i];
    }
    if HasKey(b, k) {
      var i :| 0 <= i < |b| && KeyOf(b[i]) == k;
      assert (a + b)[|a| + i] == b[i];
    }
  }

  /** Deduplication keeps exactly the keys there are. */
  lemma {:induction false} KeptKeys(rows: seq<NewEntry>, k: Key)
    ensures HasKey(LastOfEachKey(rows), k) <==> HasKey(rows, k)
  {
    if rows == [] {
    } else {
      KeptKeys(rows[1..], k);
      assert rows == [rows[0]] + rows[1..];
      HasKeyCons(rows[0], rows[1..]);
      HasKeyCons(rows[0], LastOfEachKey(rows[1..]));
    }
  }

  /** On success no two rows share a key. */
  lemma {:induction false} KeptAreDistinct(rows: seq<NewEntry>)
    ensures DistinctKeys(LastOfEachKey(rows))
  {
    if rows == [] {
    } else {
      KeptAreDistinct(rows[1..]);
      KeptKeys(rows[1..], KeyOf(rows[0]));
      if !HasKey(rows[1..], KeyOf(rows[0])) {
        DistinctCons(rows[0], LastOfEachKey(rows[1..]));
      }
    }
  }

  lemma DistinctCons(e: NewEntry, rest: seq<NewEntry>)
    requires DistinctKeys(rest) && !HasKey(rest, KeyOf(e))
    ensures DistinctKeys([e] + rest)
  {
    assert forall j :: 0 <= j < |rest| ==> KeyOf(rest[j]) != KeyOf(e);
  }

  /** In a list followed by another, a row survives if its key is not used again in either. */
  lemma {:induction false} KeptOfConcat(a: seq<NewEntry>, b: seq<NewEntry>)
    ensures LastOfEachKey(a + b) == Without(LastOfEachKey(a), b) + LastOfEachKey(b)
  {
    if a == [] {
      assert a + b == b;
      assert [] + LastOfEachKey(b) == LastOfEachKey(b);
    } else {
      KeptOfConcat(a[1..], b);
      assert (a + b)[1..] == a[1..] + b && (a + b)[0] == a[0];
      HasKeyConcat(a[1..], b, KeyOf(a[0]));
      WithoutCons(a[0], LastOfEachKey(a[1..]), b, LastOfEachKey(b));
    }
  }

  lemma WithoutCons(e: NewEntry, rest: seq<NewEntry>, other: seq<NewEntry>, tail: seq<NewEntry>)
    ensures Without([e] + rest, other) + tail
      == if HasKey(other, KeyOf(e)) then Without(rest, other) + tail else [e] + (Without(rest, other) + tail)
  {
    assert ([e] + rest)[1..] == rest;
  }

  /** Rows with distinct keys are all kept. */
  lemma {:induction false} DistinctAreKept(rows: seq<NewEntry>)
    requires DistinctKeys(rows)
    ensures LastOfEachKey(rows) == rows
  {
    if rows == [] {
    } else {
      DistinctAreKept(rows[1..]);
      assert rows == [rows[0]] + rows[1..];
      assert forall j :: 0 <= j < |rows[1..]| ==> rows[1..][j] == rows[j + 1];
    }
  }

  /** The table of a list followed by another: the second overwrites the first. */
  lemma {:induction false} TableOfConcat(a: seq<NewEntry>, b: seq<NewEntry>)
    ensures Table(a + b) == Table(a) + Table(b)
  {
    if b == [] {
      assert a + b == a;
      assert Table(a) + map[] == Table(a);
    } else {
      var n := |b| - 1;
      TableOfConcat(a, b[..n]);
      assert (a + b)[..|a + b| - 1] == a + b[..n];
      assert (Table(a) + Table(b[..n]))[KeyOf(b[n]) := b[n]] == Table(a) + Table(b[..n])[KeyOf(b[n]) := b[n]];
    }
  }

  lemma {:induction false} TableKeys(rows: seq<NewEntry>, k: Key)
    ensures k in Table(rows) <==> HasKey(rows, k)
    ensures k in Table(rows) ==> KeyOf(Table(rows)[k]) == k
  {
    if rows == [] {
    } else {
      var n := |rows| - 1;
      TableKeys(rows[..n], k);
      HasKeyConcat(rows[..n], [rows[n]], k);
      assert rows == rows[..n] + [rows[n]];
      assert HasKey([rows[n]], k) <==> KeyOf(rows[n]) == k by {
        if KeyOf(rows[n]) == k {
          assert [rows[n]][0] == rows[n];
        }
      }
    }
  }

  /**
    Normalisation is map overwrite: looking a key up in the kept rows gives what filling a table
    with all the rows, top to bottom, gives.
   */
  lemma {:induction false} KeptIsOverwrite(rows: seq<NewEntry>)
    ensures Table(LastOfEachKey(rows)) == Table(rows)
  {
    if rows == [] {
    } else {
      var e, rest := rows[0], rows[1..];
      KeptIsOverwrite(rest);
      TableOfConcat([e], rest);
      assert [e] + rest == rows;
      TableKeys(rest, KeyOf(e));
      TableOfOne(e);
      if HasKey(rest, KeyOf(e)) {
        assert map[KeyOf(e) := e] + Table(rest) == Table(rest);
      } else {
        TableOfConcat([e], LastOfEachKey(rest));
      }
    }
  }

  lemma TableOfOne(e: NewEntry)
    ensures Table([e]) == map[KeyOf(e) := e]
  {
    assert [e][..0] == [];
  }

  /** A list with distinct keys has as many rows as its table has entries. */
  lemma {:induction false} TableSize(rows: seq<NewEntry>)
    requires DistinctKeys(rows)
    ensures |Table(rows)| == |rows|
  {
    if rows == [] {
    } else {
      var n := |rows| - 1;
      TableSize(rows[..n]);
      TableKeys(rows[..n], KeyOf(rows[n]));
      assert KeyOf(rows[n]) !in Table(rows[..n]);
    }
  }

  /** The cap applies to the number of distinct keys, not to the number of rows submitted. */
  lemma CapCountsKeys(raw: seq<NewEntry>, max: nat, lower: string -> string)
    requires Sound(CleanAll(raw, lower))
    ensures Normalized(raw, max, lower).Ok? <==> |Table(CleanAll(raw, lower))| <= max
  {
    var cleaned := CleanAll(raw, lower);
    SizeDecides(raw, max, lower);
    KeptAreDistinct(cleaned);
    TableSize(LastOfEachKey(cleaned));
    KeptIsOverwrite(cleaned);
  }

  // ---- What is accepted --------------------------------------------------------------------------

  /** The two language codes and the two terms of a row, as they are checked and stored. */
  datatype Fields = Fields(source: string, target: string, term: string, translation: string)

  function FieldsOf(e: NewEntry, lower: string -> string): Fields {
    Fields(lower(Trim(e.sourceLang)), lower(Trim(e.targetLang)), Trim(e.sourceTerm), Trim(e.targetTerm))
  }

  /** At most 10 UTF-8 bytes for a language code. */
  predicate ShortCode(code: string) {
    1 <= Utf8Length(code) <= 10
  }

  predicate ShortTerm(term: string) {
    1 <= |term| <= 200
  }

  predicate Acceptable(f: Fields) {
    ShortCode(f.source) && ShortCode(f.target) && f.source != f.target && ShortTerm(f.term) && ShortTerm(f.translation)
  }

  /** The row's first complaint: what it is about is wrong, and everything checked before is right. */
  predicate Complains(f: Fields, d: Defect) {
    match d
    case MissingLanguage => f.source == "" || f.target == ""
    case LanguageTooLong =>
      f.source != "" && f.target != "" && (Utf8Length(f.source) > 10 || Utf8Length(f.target) > 10)
    case SameLanguage => ShortCode(f.source) && f.source == f.target
    case EmptyTerm => ShortCode(f.source) && ShortCode(f.target) && f.source != f.target && (f.term == "" || f.translation == "")
    case TermTooLong =>
      ShortCode(f.source) && ShortCode(f.target) && f.source != f.target && f.term != "" && f.translation != "" &&
      (|f.term| > 200 || |f.translation| > 200)
  }

  /** A code is empty exactly when its length is 0. */
  lemma Utf8OfSome(s: string)
    ensures s == "" <==> Utf8Length(s) == 0
  {
  }

  lemma DefectOfFields(e: NewEntry, f: Fields)
    requires f == Fields(e.sourceLang, e.targetLang, e.sourceTerm, e.targetTerm)
    ensures match DefectOf(e) case None => Acceptable(f) case Some(d) => Complains(f, d)
  {
    Utf8OfSome(f.source);
    Utf8OfSome(f.target);
  }

  lemma OneComplaint(f: Fields, c: Defect, d: Defect)
    requires Complains(f, c)
    ensures !Acceptable(f)
    ensures Complains(f, d) ==> c == d
  {
    Utf8OfSome(f.source);
    Utf8OfSome(f.target);
  }

  /** A row is in order or it has exactly one first complaint. */
  lemma DefectExactlyWhen(e: NewEntry, lower: string -> string, d: Defect)
    ensures DefectOf(Clean(e, lower)).None? <==> Acceptable(FieldsOf(e, lower))
    ensures DefectOf(Clean(e, lower)) == Some(d) <==> Complains(FieldsOf(e, lower), d)
  {
    var f, c := FieldsOf(e, lower), DefectOf(Clean(e, lower));
    DefectOfFields(Clean(e, lower), f);
    if c.Some? {
      OneComplaint(f, c.value, d);
    } else if Complains(f, d) {
      OneComplaint(f, d, d);
    }
  }

  /** The rows in front of row `n` are in order. */
  ghost predicate AcceptableUpTo(raw: seq<NewEntry>, n: nat, lower: string -> string)
    requires n <= |raw|
  {
    forall i :: 0 <= i < n ==> Acceptable(FieldsOf(raw[i], lower))
  }

  lemma SoundIsAcceptable(raw: seq<NewEntry>, n: nat, lower: string -> string)
    requires n <= |raw|
    ensures Sound(CleanAll(raw, lower)[..n]) <==> AcceptableUpTo(raw, n, lower)
  {
    var rows := CleanAll(raw, lower)[..n];
    forall i | 0 <= i < n
      ensures DefectOf(rows[i]).None? <==> Acceptable(FieldsOf(raw[i], lower))
    {
      DefectExactlyWhen(raw[i], lower, EmptyTerm);
      assert rows[i] == Clean(raw[i], lower);
    }
  }

  /** A payload is refused for its row `i` and complaint `d` exactly when that is the first complaint there is. */
  lemma RefusedExactlyWhen(raw: seq<NewEntry>, max: nat, lower: string -> string, i: nat, d: Defect)
    requires i < |raw|
    ensures Normalized(raw, max, lower) == Err(BadEntry(i + 1, d)) <==>
      AcceptableUpTo(raw, i, lower) && Complains(FieldsOf(raw[i], lower), d)
  {
    var cleaned := CleanAll(raw, lower);
    var e := raw[i];
    assert cleaned[i] == Clean(e, lower);
    DefectExactlyWhen(e, lower, d);
    SoundIsAcceptable(raw, i, lower);
    FirstDefectExactlyWhen(raw, max, lower, i, d);
  }

  lemma FirstDefectExactlyWhen(raw: seq<NewEntry>, max: nat, lower: string -> string, i: nat, d: Defect)
    requires i < |raw|
    ensures Normalized(raw, max, lower) == Err(BadEntry(i + 1, d)) <==>
      Sound(CleanAll(raw, lower)[..i]) && DefectOf(CleanAll(raw, lower)[i]) == Some(d)
  {
    if Sound(CleanAll(raw, lower)[..i]) && DefectOf(CleanAll(raw, lower)[i]).Some? {
      FirstDefectDecides(raw, max, lower, i);
    } else {
      NotRefusedForRow(raw, max, lower, i);
    }
  }

  /** Only the row behind the sound ones can be refused. */
  lemma NotRefusedForRow(raw: seq<NewEntry>, max: nat, lower: string -> string, i: nat)
    requires i != SoundPrefix(CleanAll(raw, lower))
    ensures var r := Normalized(raw, max, lower); r.Err? && r.error.BadEntry? ==> r.error.number != i + 1
  {
    var cleaned := CleanAll(raw, lower);
    var n := SoundPrefix(cleaned);
    if n < |raw| {
      FirstDefectDecides(raw, max, lower, n);
    } else {
      assert cleaned[..n] == cleaned;
      SizeDecides(raw, max, lower);
    }
  }

  /** A refusal names a row that is there, or the number of rows. */
  lemma RefusalIsAboutRow(raw: seq<NewEntry>, max: nat, lower: string -> string)
    requires Normalized(raw, max, lower).Err?
    ensures match Normalized(raw, max, lower).error
      case BadEntry(n, _) => 1 <= n <= |raw|
      case TooManyEntries(m) => m == max && AcceptableUpTo(raw, |raw|, lower) && |Table(CleanAll(raw, lower))| > max
  {
    var cleaned := CleanAll(raw, lower);
    if SoundPrefix(cleaned) == |raw| {
      assert cleaned[..|raw|] == cleaned;
      SoundIsAcceptable(raw, |raw|, lower);
      CapCountsKeys(raw, max, lower);
    }
  }

  /** The two rows are about the same term in the same direction. */
  predicate SameKey(f: Fields, g: Fields) {
    f.source == g.source && f.target == g.target && f.term == g.term
  }

  /** No row further down has the same languages and term. */
  ghost predicate IsLast(raw: seq<NewEntry>, lower: string -> string, i: nat)
    requires i < |raw|
  {
    forall j :: i < j < |raw| ==> !SameKey(FieldsOf(raw[j], lower), FieldsOf(raw[i], lower))
  }

  ghost predicate FromLast(raw: seq<NewEntry>, lower: string -> string, f: Fields) {
    exists i :: 0 <= i < |raw| && IsLast(raw, lower, i) && FieldsOf(raw[i], lower) == f
  }

  lemma {:induction false} KeptIsLast(raw: seq<NewEntry>, lower: string -> string, f: Fields, e: NewEntry)
    requires e == NewEntry(f.source, f.target, f.term, f.translation)
    ensures e in LastOfEachKey(CleanAll(raw, lower)) <==> FromLast(raw, lower, f)
  {
    if raw != [] {
      KeptIsLast(raw[1..], lower, f, e);
      CleanFirst(raw, lower);
      FirstIsLast(raw, lower);
      FromLastStep(raw, lower, f);
      EntryOf(raw[0], lower, f);
      KeptStep(CleanAll(raw, lower), CleanAll(raw[1..], lower), e);
    }
  }

  lemma CleanFirst(raw: seq<NewEntry>, lower: string -> string)
    requires raw != []
    ensures var rows := CleanAll(raw, lower);
      rows != [] && rows[0] == Clean(raw[0], lower) && rows[1..] == CleanAll(raw[1..], lower)
  {
    MapFirst((e: NewEntry) => Clean(e, lower), raw);
  }

  lemma KeptStep(rows: seq<NewEntry>, rest: seq<NewEntry>, e: NewEntry)
    requires rows != [] && rest == rows[1..]
    ensures e in LastOfEachKey(rows) <==> e in LastOfEachKey(rest) || (e == rows[0] && !HasKey(rest, KeyOf(rows[0])))
  {
  }

  lemma EntryOf(e: NewEntry, lower: string -> string, f: Fields)
    ensures Clean(e, lower) == NewEntry(f.source, f.target, f.term, f.translation) <==> FieldsOf(e, lower) == f
  {
  }

  lemma FromLastStep(raw: seq<NewEntry>, lower: string -> string, f: Fields)
    requires raw != []
    ensures FromLast(raw, lower, f) <==>
      (IsLast(raw, lower, 0) && FieldsOf(raw[0], lower) == f) || FromLast(raw[1..], lower, f)
  {
    var rest := raw[1..];
    if FromLast(rest, lower, f) {
      var i :| 0 <= i < |rest| && IsLast(rest, lower, i) && FieldsOf(rest[i], lower) == f;
      LastShifts(raw, lower, i);
      assert raw[i + 1] == rest[i];
    }
    if FromLast(raw, lower, f) {
      var i :| 0 <= i < |raw| && IsLast(raw, lower, i) && FieldsOf(raw[i], lower) == f;
      if i > 0 {
        LastShifts(raw, lower, i - 1);
        assert rest[i - 1] == raw[i];
      }
    }
  }

  lemma LastShifts(raw: seq<NewEntry>, lower: string -> string, i: nat)
    requires i + 1 < |raw|
    ensures IsLast(raw[1..], lower, i) <==> IsLast(raw, lower, i + 1)
  {
    var rest := raw[1..];
    forall j | i + 1 < j < |raw|
      ensures raw[j] == rest[j - 1]
    {
    }
  }

  lemma FirstIsLast(raw: seq<NewEntry>, lower: string -> string)
    requires raw != []
    ensures HasKey(CleanAll(raw[1..], lower), KeyOf(Clean(raw[0], lower))) <==> !IsLast(raw, lower, 0)
  {
    var rows := CleanAll(raw[1..], lower);
    var k := KeyOf(Clean(raw[0], lower));
    forall j | 0 < j < |raw|
      ensures KeyOf(rows[j - 1]) == k <==> SameKey(FieldsOf(raw[j], lower), FieldsOf(raw[0], lower))
    {
      assert rows[j - 1] == Clean(raw[j], lower);
    }
    if HasKey(rows, k) {
      var i :| 0 <= i < |rows| && KeyOf(rows[i]) == k;
      assert SameKey(FieldsOf(raw[i + 1], lower), FieldsOf(raw[0], lower));
    }
  }

  /**
    An accepted payload becomes exactly the rows that are last with their languages and term, with trimmed
    terms and trimmed and lower-cased codes.
   */
  lemma AcceptedRows(raw: seq<NewEntry>, max: nat, lower: string -> string, f: Fields)
    requires Normalized(raw, max, lower).Ok?
    ensures AcceptableUpTo(raw, |raw|, lower)
    ensures NewEntry(f.source, f.target, f.term, f.translation) in Normalized(raw, max, lower).value <==>
      FromLast(raw, lower, f)
  {
    AcceptedIsSound(raw, max, lower);
    KeptIsLast(raw, lower, f, NewEntry(f.source, f.target, f.term, f.translation));
    var cleaned := CleanAll(raw, lower);
    assert cleaned[..|raw|] == cleaned;
    SoundIsAcceptable(raw, |raw|, lower);
  }

  // ---- Normalising twice -------------------------------------------------------------------------

  /** Lower-casing keeps a trimmed code trimmed, and a second lower-casing changes nothing. */
  predicate SettlesOn(lower: string -> string, s: string) {
    Trimmed(s) ==> Trimmed(lower(s)) && lower(lower(s)) == lower(s)
  }

  ghost predicate Settles(lower: string -> string) {
    forall s :: SettlesOn(lower, s)
  }

  lemma CleanTwice(e: NewEntry, lower: string -> string)
    requires Settles(lower)
    ensures Clean(Clean(e, lower), lower) == Clean(e, lower)
  {
    assert SettlesOn(lower, Trim(e.sourceLang)) && SettlesOn(lower, Trim(e.targetLang));
  }

  /** A kept row is one of the rows. */
  lemma {:induction false} KeptAreRows(rows: seq<NewEntry>, e: NewEntry)
    requires e in LastOfEachKey(rows)
    ensures e in rows
  {
    if rows != [] && e != rows[0] {
      KeptAreRows(rows[1..], e);
    }
  }

  /** A row that normalisation accepts and leaves as it is. */
  predicate Stable(e: NewEntry, lower: string -> string) {
    Clean(e, lower) == e && DefectOf(e).None?
  }

  /** What normalisation returns it returns again, whatever the first input was. */
  lemma NormalizeIsIdempotent(raw: seq<NewEntry>, max: nat, lower: string -> string)
    requires Settles(lower) && Normalized(raw, max, lower).Ok?
    ensures Normalized(Normalized(raw, max, lower).value, max, lower) == Normalized(raw, max, lower)
  {
    var kept := Normalized(raw, max, lower).value;
    AcceptedIsSound(raw, max, lower);
    forall i | 0 <= i < |kept|
      ensures Stable(kept[i], lower)
    {
      KeptIsStable(raw, lower, kept[i]);
    }
    KeptAreDistinct(CleanAll(raw, lower));
    StableIsNormal(kept, max, lower);
  }

  lemma KeptIsStable(raw: seq<NewEntry>, lower: string -> string, e: NewEntry)
    requires Settles(lower) && Sound(CleanAll(raw, lower)) && e in LastOfEachKey(CleanAll(raw, lower))
    ensures Stable(e, lower)
  {
    KeptAreRows(CleanAll(raw, lower), e);
    var j :| 0 <= j < |CleanAll(raw, lower)| && CleanAll(raw, lower)[j] == e;
    CleanTwice(raw[j], lower);
  }

  lemma StableIsNormal(rows: seq<NewEntry>, max: nat, lower: string -> string)
    requires DistinctKeys(rows) && |rows| <= max
    requires forall i :: 0 <= i < |rows| ==> Stable(rows[i], lower)
    ensures Normalized(rows, max, lower) == Ok(rows)
  {
    var cleaned := CleanAll(rows, lower);
    assert forall i :: 0 <= i < |rows| ==> cleaned[i] == rows[i] by {
      forall i | 0 <= i < |rows|
        ensures cleaned[i] == rows[i]
      {
        assert Stable(rows[i], lower);
      }
    }
    assert cleaned == rows;
    SoundIfStable(rows, lower);
    DistinctAreKept(rows);
    SizeDecides(rows, max, lower);
  }

  lemma SoundIfStable(rows: seq<NewEntry>, lower: string -> string)
    requires forall i :: 0 <= i < |rows| ==> Stable(rows[i], lower)
    ensures Sound(rows)
  {
  }

  /** Deduplication that drops nothing changes nothing. */
  lemma {:induction false} KeptLength(rows: seq<NewEntry>)
    ensures |LastOfEachKey(rows)| <= |rows|
    ensures |LastOfEachKey(rows)| == |rows| ==> LastOfEachKey(rows) == rows
  {
    if rows == [] {
    } else {
      KeptLength(rows[1..]);
      assert rows == [rows[0]] + rows[1..];
    }
  }

  lemma AcceptedIsSound(raw: seq<NewEntry>, max: nat, lower: string -> string)
    requires Normalized(raw, max, lower).Ok?
    ensures Sound(CleanAll(raw, lower)) && Normalized(raw, max, lower).value == LastOfEachKey(CleanAll(raw, lower))
    ensures |Normalized(raw, max, lower).value| <= max
  {
    var cleaned := CleanAll(raw, lower);
    assert cleaned[..|cleaned|] == cleaned;
  }

  // ---- glossary_import ---------------------------------------------------------------------------

  datatype ImportError = BadCsv(error: CsvError) | NothingToImport | Rejected(reason: GlossaryError)

  /** The entries saved by an import over `existing`. */
  function Imported(existing: seq<NewEntry>, csv: string, max: nat, lower: string -> string)
    : Result<seq<NewEntry>, ImportError>
  {
    match Rows(Lines(csv), 0, true)
    case Err(e) => Err(BadCsv(e))
    case Ok(rows) =>
      if rows == [] then Err(NothingToImport)
      else match Normalized(existing + rows, max, lower)
           case Err(e) => Err(Rejected(e))
           case Ok(entries) => Ok(entries)
  }

  method GlossaryImport(existing: seq<NewEntry>, csv: string, max: nat, lower: string -> string)
    returns (r: Result<seq<NewEntry>, ImportError>)
    ensures r == Imported(existing, csv, max, lower)
  {
    var imported := ImportCsv(csv);
    if imported.Err? {
      return Err(BadCsv(imported.error));
    }
    if imported.value == [] {
      return Err(NothingToImport);
    }
    var merged := existing;
    merged := merged + imported.value;
    var entries := NormalizeEntries(merged, max, lower);
    match entries {
      case Err(e) => return Err(Rejected(e));
      case Ok(value) => return Ok(value);
    }
  }

  lemma CleanConcat(a: seq<NewEntry>, b: seq<NewEntry>, lower: string -> string)
    ensures CleanAll(a + b, lower) == CleanAll(a, lower) + CleanAll(b, lower)
  {
    MapConcat((e: NewEntry) => Clean(e, lower), a, b);
  }

  /**
    An import takes the imported translation of every key it mentions, keeps every other row of
    the glossary, and puts the imported rows last.
   */
  lemma ImportOverrides(existing: seq<NewEntry>, csv: string, max: nat, lower: string -> string)
    requires Imported(existing, csv, max, lower).Ok?
    ensures Rows(Lines(csv), 0, true).Ok?
    ensures var entries := Imported(existing, csv, max, lower).value;
      var before := CleanAll(existing, lower);
      var imported := CleanAll(Rows(Lines(csv), 0, true).value, lower);
      && DistinctKeys(entries)
      && Table(entries) == Table(before) + Table(imported)
      && entries == Without(LastOfEachKey(before), imported) + LastOfEachKey(imported)
  {
    var rows := Rows(Lines(csv), 0, true).value;
    AcceptedIsSound(existing + rows, max, lower);
    CleanConcat(existing, rows, lower);
    KeptAreDistinct(CleanAll(existing + rows, lower));
    KeptIsOverwrite(CleanAll(existing + rows, lower));
    TableOfConcat(CleanAll(existing, lower), CleanAll(rows, lower));
    KeptOfConcat(CleanAll(existing, lower), CleanAll(rows, lower));
  }

  lemma {:induction false} Utf8AtLeastOne(s: string)
    ensures Utf8Length(s) >= |s|
  {
    if s == "" {
    } else {
      Utf8AtLeastOne(s[1..]);
    }
  }

  /** No sound row can be mistaken for the header: `source_lang` is too long for a language code. */
  lemma SoundIsNotHeader(e: NewEntry)
    requires DefectOf(e).None?
    ensures !EqIgnoreAsciiCase(e.sourceLang, "source_lang")
  {
    Utf8AtLeastOne(e.sourceLang);
    assert |"source_lang"| == 11;
  }

  lemma {:induction false} WithoutItself(rows: seq<NewEntry>, other: seq<NewEntry>)
    requires forall i :: 0 <= i < |rows| ==> HasKey(other, KeyOf(rows[i]))
    ensures Without(rows, other) == []
  {
    if rows == [] {
    } else {
      assert forall i :: 0 <= i < |rows[1..]| ==> rows[1..][i] == rows[i + 1];
      assert KeyOf(rows[0]) == KeyOf(rows[0]);
      WithoutItself(rows[1..], other);
    }
  }

  /**
    Exporting a stored glossary in any style a file can be printed in, and importing that file
    back, changes nothing.
   */
  lemma ReimportIsIdentity(stored: seq<NewEntry>, file: seq<FileLine>, max: nat, lower: string -> string)
    requires stored != [] && Normalized(stored, max, lower) == Ok(stored)
    requires AllWellFormed(file) && Entries(file) == stored
    ensures Imported(stored, ShowFile(file), max, lower) == Ok(stored)
  {
    ReadBack(stored, file, max, lower);
    DoubledIsNormal(stored, max, lower);
    ImportedIs(stored, ShowFile(file), stored, max, lower);
  }

  /**
    A stored glossary can be exported exactly when no field holds a newline: then quoting every field gives a
    text whose import changes nothing, and otherwise no text at all reads as the glossary.
   */
  lemma ExportableExactlyWhen(stored: seq<NewEntry>, max: nat, lower: string -> string)
    requires Settles(lower) && stored != [] && Normalized(stored, max, lower) == Ok(stored)
    ensures (exists csv :: Rows(Lines(csv), 0, true) == Ok(stored)) <==> AllFit(stored)
    ensures AllFit(stored) ==> AllWellFormed(QuotedFile(stored))
    ensures AllFit(stored) ==> Imported(stored, ShowFile(QuotedFile(stored)), max, lower) == Ok(stored)
  {
    StoredIsSound(stored, max, lower);
    SoundIsNotHeader(stored[0]);
    StoredIsTrimmed(stored, max, lower);
    ReadableExactlyWhen(stored);
    if AllFit(stored) {
      QuotedFileReads(stored);
      ReimportIsIdentity(stored, QuotedFile(stored), max, lower);
    }
  }

  lemma StoredIsTrimmed(stored: seq<NewEntry>, max: nat, lower: string -> string)
    requires Settles(lower) && Normalized(stored, max, lower) == Ok(stored)
    ensures AllTrimmed(stored)
  {
    StoredIsClean(stored, max, lower);
    forall k | 0 <= k < |stored| ensures IsTrimmed(stored[k]) {
      var e := stored[k];
      assert Clean(e, lower) == CleanAll(stored, lower)[k] == e;
      CleanIsTrimmed(e, lower);
    }
  }

  lemma CleanIsTrimmed(e: NewEntry, lower: string -> string)
    requires Settles(lower) && Clean(e, lower) == e
    ensures IsTrimmed(e)
  {
    assert SettlesOn(lower, Trim(e.sourceLang)) && SettlesOn(lower, Trim(e.targetLang));
  }

  lemma StoredIsClean(stored: seq<NewEntry>, max: nat, lower: string -> string)
    requires Normalized(stored, max, lower) == Ok(stored)
    ensures CleanAll(stored, lower) == stored
  {
    var cleaned := Accepted(stored, max, lower);
    NothingDropped(cleaned, stored);
  }

  lemma StoredIsSound(stored: seq<NewEntry>, max: nat, lower: string -> string)
    requires Normalized(stored, max, lower) == Ok(stored)
    ensures Sound(stored) && LastOfEachKey(stored) == stored
  {
    var cleaned := Accepted(stored, max, lower);
    SoundKept(cleaned, stored);
  }

  lemma SoundKept(rows: seq<NewEntry>, kept: seq<NewEntry>)
    requires Sound(rows) && LastOfEachKey(rows) == kept && |rows| == |kept|
    ensures Sound(kept) && LastOfEachKey(kept) == kept
  {
    NothingDropped(rows, kept);
  }

  lemma Accepted(raw: seq<NewEntry>, max: nat, lower: string -> string) returns (cleaned: seq<NewEntry>)
    requires Normalized(raw, max, lower).Ok?
    ensures cleaned == CleanAll(raw, lower) && |cleaned| == |raw| && Sound(cleaned)
    ensures Normalized(raw, max, lower).value == LastOfEachKey(cleaned) && |LastOfEachKey(cleaned)| <= max
  {
    cleaned := CleanAll(raw, lower);
    AcceptedIsSound(raw, max, lower);
  }

  lemma NothingDropped(rows: seq<NewEntry>, kept: seq<NewEntry>)
    requires LastOfEachKey(rows) == kept && |rows| == |kept|
    ensures rows == kept
  {
    KeptLength(rows);
  }

  lemma ReadBack(stored: seq<NewEntry>, file: seq<FileLine>, max: nat, lower: string -> string)
    requires stored != [] && Normalized(stored, max, lower) == Ok(stored)
    requires AllWellFormed(file) && Entries(file) == stored
    ensures Rows(Lines(ShowFile(file)), 0, true) == Ok(stored)
  {
    StoredIsSound(stored, max, lower);
    SoundIsNotHeader(stored[0]);
    ImportInvertsPrinting(file);
  }

  lemma DoubledIsNormal(stored: seq<NewEntry>, max: nat, lower: string -> string)
    requires Normalized(stored, max, lower) == Ok(stored)
    ensures Normalized(stored + stored, max, lower) == Ok(stored)
  {
    StoredIsSound(stored, max, lower);
    DoubledIsKeptOnce(stored);
    DoubledIsSound(stored);
    var cleaned := Accepted(stored, max, lower);
    assert CleanAll(stored + stored, lower) == stored + stored by {
      StoredIsClean(stored, max, lower);
      CleanConcat(stored, stored, lower);
    }
    SizeDecides(stored + stored, max, lower);
  }

  lemma ImportedIs(existing: seq<NewEntry>, csv: string, rows: seq<NewEntry>, max: nat, lower: string -> string)
    requires Rows(Lines(csv), 0, true) == Ok(rows) && rows != [] && Normalized(existing + rows, max, lower).Ok?
    ensures Imported(existing, csv, max, lower) == Ok(Normalized(existing + rows, max, lower).value)
  {
  }

  lemma DoubledIsKeptOnce(rows: seq<NewEntry>)
    requires LastOfEachKey(rows) == rows
    ensures LastOfEachKey(rows + rows) == rows
  {
    KeptOfConcat(rows, rows);
    assert forall i :: 0 <= i < |rows| ==> HasKey(rows, KeyOf(rows[i]));
    WithoutItself(rows, rows);
    assert [] + rows == rows;
  }

  lemma DoubledIsSound(rows: seq<NewEntry>)
    requires Sound(rows)
    ensures Sound(rows + rows)
  {
  }

  // ---- terms_for ---------------------------------------------------------------------------------

  function Matching(entries: seq<NewEntry>, sourceLang: string, targetLang: string): seq<(string, string)> {
    if entries == [] then []
    else if entries[0].sourceLang == sourceLang && entries[0].targetLang == targetLang then
      [(entries[0].sourceTerm, entries[0].targetTerm)] + Matching(entries[1..], sourceLang, targetLang)
    else Matching(entries[1..], sourceLang, targetLang)
  }

  /** The pairs injected into a prompt for one direction. */
  function TermsFor(entries: seq<NewEntry>, sourceLang: string, targetLang: string): seq<(string, string)> {
    var all := Matching(entries, sourceLang, targetLang);
    if |all| > MAX_INJECTED then all[..MAX_INJECTED] else all
  }

  /** The translation the table holds for a term in one direction. */
  function LookUp(entries: seq<NewEntry>, sl: string, tl: string, term: string): Option<string> {
    var k := Key(sl, tl, term);
    if k in Table(entries) then Some(Table(entries)[k].targetTerm) else None
  }

  lemma TableCons(e: NewEntry, rest: seq<NewEntry>)
    requires !HasKey(rest, KeyOf(e))
    ensures Table([e] + rest) == Table(rest)[KeyOf(e) := e]
    ensures KeyOf(e) !in Table(rest)
  {
    TableOfConcat([e], rest);
    TableOfOne(e);
    TableKeys(rest, KeyOf(e));
  }

  lemma DistinctTail(entries: seq<NewEntry>)
    requires DistinctKeys(entries) && entries != []
    ensures DistinctKeys(entries[1..]) && !HasKey(entries[1..], KeyOf(entries[0]))
    ensures entries == [entries[0]] + entries[1..]
  {
    assert forall i :: 0 <= i < |entries[1..]| ==> entries[1..][i] == entries[i + 1];
  }

  /** The pairs of one direction are exactly the table's rows of that direction. */
  lemma {:induction false} MatchingIsTable(entries: seq<NewEntry>, sl: string, tl: string, p: (string, string))
    requires DistinctKeys(entries)
    ensures p in Matching(entries, sl, tl) <==> LookUp(entries, sl, tl, p.0) == Some(p.1)
  {
    if entries == [] {
    } else {
      DistinctTail(entries);
      TableCons(entries[0], entries[1..]);
      MatchingIsTable(entries[1..], sl, tl, p);
      InCons((entries[0].sourceTerm, entries[0].targetTerm), Matching(entries[1..], sl, tl), p);
    }
  }

  lemma InCons(x: (string, string), rest: seq<(string, string)>, p: (string, string))
    ensures p in [x] + rest <==> p == x || p in rest
  {
  }

  ghost predicate Unambiguous(terms: seq<(string, string)>) {
    forall i, j :: 0 <= i < j < |terms| ==> terms[i].0 != terms[j].0
  }

  lemma {:induction false} MatchingDistinct(entries: seq<NewEntry>, sl: string, tl: string)
    requires DistinctKeys(entries)
    ensures Unambiguous(Matching(entries, sl, tl))
  {
    if entries == [] {
    } else {
      var e, rest := entries[0], entries[1..];
      DistinctTail(entries);
      MatchingDistinct(rest, sl, tl);
      if e.sourceLang == sl && e.targetLang == tl {
        var m := Matching(rest, sl, tl);
        TableCons(e, rest);
        forall j | 0 <= j < |m|
          ensures m[j].0 != e.sourceTerm
        {
          MatchingIsTable(rest, sl, tl, m[j]);
        }
        UnambiguousCons((e.sourceTerm, e.targetTerm), m);
      }
    }
  }

  lemma UnambiguousCons(x: (string, string), rest: seq<(string, string)>)
    requires Unambiguous(rest) && forall j :: 0 <= j < |rest| ==> rest[j].0 != x.0
    ensures Unambiguous([x] + rest)
  {
  }

  /**
    `terms` never offers two translations of one term, offers only what the rows hold when read
    top to bottom, and leaves something out only when the cap is reached.
   */
  ghost predicate IsPromptFor(terms: seq<(string, string)>, rows: seq<NewEntry>, sl: string, tl: string) {
    && Unambiguous(terms) && |terms| <= 50
    && (forall p: (string, string) :: p in terms ==> LookUp(rows, sl, tl, p.0) == Some(p.1))
    && (|terms| < 50 ==> forall p: (string, string) :: LookUp(rows, sl, tl, p.0) == Some(p.1) ==> p in terms)
  }

  lemma TermsOfDistinct(entries: seq<NewEntry>, sl: string, tl: string)
    requires DistinctKeys(entries)
    ensures IsPromptFor(TermsFor(entries, sl, tl), entries, sl, tl)
  {
    MatchingDistinct(entries, sl, tl);
    var all := Matching(entries, sl, tl);
    forall p: (string, string)
      ensures p in all <==> LookUp(entries, sl, tl, p.0) == Some(p.1)
    {
      MatchingIsTable(entries, sl, tl, p);
    }
    PrefixIsIn(all, MAX_INJECTED);
  }

  lemma PrefixIsIn(all: seq<(string, string)>, n: nat)
    ensures n < |all| ==> forall p :: p in all[..n] ==> p in all
  {
  }

  /** An entry occurs at most once among rows with distinct keys. */
  lemma {:induction false} CountAtMostOne(rows: seq<NewEntry>, e: NewEntry)
    requires DistinctKeys(rows)
    ensures multiset(rows)[e] <= 1
  {
    if rows == [] {
    } else {
      DistinctTail(rows);
      CountAtMostOne(rows[1..], e);
      assert multiset(rows) == multiset([rows[0]]) + multiset(rows[1..]);
      if e == rows[0] {
        assert e !in rows[1..];
      }
    }
  }

  lemma CountTwo(rows: seq<NewEntry>, i: nat, j: nat)
    requires i < j < |rows| && rows[i] == rows[j]
    ensures multiset(rows)[rows[i]] >= 2
  {
    assert rows == rows[..j] + rows[j..];
    assert rows[..j][i] == rows[i] && rows[j..][0] == rows[i];
    assert rows[i] in multiset(rows[..j]) && rows[i] in multiset(rows[j..]);
  }

  /** Reordering keeps keys distinct. */
  lemma ReorderedIsDistinct(a: seq<NewEntry>, b: seq<NewEntry>)
    requires DistinctKeys(a) && multiset(a) == multiset(b)
    ensures DistinctKeys(b)
  {
    forall i, j | 0 <= i < j < |b| ensures KeyOf(b[i]) != KeyOf(b[j]) {
      assert b[i] in multiset(a) && b[j] in multiset(a);
      var x :| 0 <= x < |a| && a[x] == b[i];
      var y :| 0 <= y < |a| && a[y] == b[j];
      if b[i] == b[j] {
        CountAtMostOne(a, b[i]);
        CountTwo(b, i, j);
      }
    }
  }

  /** A table of distinct rows holds exactly the rows, each under its key. */
  lemma {:induction false} TableHolds(rows: seq<NewEntry>, k: Key, e: NewEntry)
    requires DistinctKeys(rows)
    ensures k in Table(rows) && Table(rows)[k] == e <==> e in rows && KeyOf(e) == k
  {
    if rows == [] {
    } else {
      DistinctTail(rows);
      TableCons(rows[0], rows[1..]);
      TableHolds(rows[1..], k, e);
    }
  }

  lemma TableContained(a: seq<NewEntry>, b: seq<NewEntry>, k: Key)
    requires DistinctKeys(a) && DistinctKeys(b) && multiset(a) == multiset(b) && k in Table(a)
    ensures k in Table(b) && Table(b)[k] == Table(a)[k]
  {
    var e := Table(a)[k];
    TableHolds(a, k, e);
    assert e in multiset(a);
    TableHolds(b, k, e);
  }

  lemma ReorderedHasTable(a: seq<NewEntry>, b: seq<NewEntry>)
    requires DistinctKeys(a) && DistinctKeys(b) && multiset(a) == multiset(b)
    ensures Table(a) == Table(b)
  {
    forall k | k in Table(a) ensures k in Table(b) && Table(b)[k] == Table(a)[k] {
      TableContained(a, b, k);
    }
    forall k | k in Table(b) ensures k in Table(a) && Table(a)[k] == Table(b)[k] {
      TableContained(b, a, k);
    }
  }

  /**
    What is injected after normalising is a prompt for the rows as they were submitted, in whatever order
    the normalised entries are loaded.
   */
  lemma TermsAreUnambiguous(raw: seq<NewEntry>, max: nat, lower: string -> string, loaded: seq<NewEntry>, sl: string, tl: string)
    requires Normalized(raw, max, lower).Ok? && multiset(loaded) == multiset(Normalized(raw, max, lower).value)
    ensures IsPromptFor(TermsFor(loaded, sl, tl), CleanAll(raw, lower), sl, tl)
  {
    var entries := Normalized(raw, max, lower).value;
    AcceptedIsSound(raw, max, lower);
    KeptAreDistinct(CleanAll(raw, lower));
    KeptIsOverwrite(CleanAll(raw, lower));
    ReorderedIsDistinct(entries, loaded);
    ReorderedHasTable(entries, loaded);
    TermsOfDistinct(loaded, sl, tl);
    SameTableSamePrompt(TermsFor(loaded, sl, tl), loaded, CleanAll(raw, lower), sl, tl);
  }

  lemma SameTableSamePrompt(terms: seq<(string, string)>, a: seq<NewEntry>, b: seq<NewEntry>, sl: string, tl: string)
    requires IsPromptFor(terms, a, sl, tl) && Table(a) == Table(b)
    ensures IsPromptFor(terms, b, sl, tl)
  {
    assert forall p: (string, string) :: LookUp(b, sl, tl, p.0) == LookUp(a, sl, tl, p.0);
  }
}
