/** server/src/glossary.rs, CSV half: the hand-written line splitter and the file reader. */
module GlossaryCsv {
  import opened Wrappers
  import opened Text
  import opened Sequences

  /** One term pair; also the shape of a CSV row. */
  datatype NewEntry = NewEntry(sourceLang: string, targetLang: string, sourceTerm: string, targetTerm: string)

  /** A row with the wrong number of fields: its 1-based line number and the number found. */
  datatype CsvError = FieldCount(line: nat, got: nat)

  // ---- split_csv_line --------------------------------------------------------------------------

  function TrimEndCr(s: string): (r: string)
    ensures r <= s && (r == "" || r[|r| - 1] != '\r')
  {
    if s != "" && s[|s| - 1] == '\r' then TrimEndCr(s[..|s| - 1]) else s
  }

  /** The fields of the rest of a line, given the field read so far and the quoting state. */
  function Fields(s: string, cur: string, inQuotes: bool): seq<string>
    decreases |s|
  {
    if s == "" then [Trim(cur)]
    else if s[0] == '"' && inQuotes then
      if |s| > 1 && s[1] == '"' then Fields(s[2..], cur + ['"'], true) else Fields(s[1..], cur, false)
    else if s[0] == '"' && AllSpace(cur) then Fields(s[1..], "", true)
    else if s[0] == ',' && !inQuotes then [Trim(cur)] + Fields(s[1..], "", false)
    else Fields(s[1..], cur + [s[0]], inQuotes)
  }

  function LineFields(line: string): seq<string> {
    Fields(TrimEndCr(line), "", false)
  }

  method SplitCsvLine(line: string) returns (fields: seq<string>)
    ensures fields == LineFields(line)
  {
    fields := [];
    var cur, inQuotes := "", false;
    var chars := TrimEndCr(line);
    while chars != ""
      invariant fields + Fields(chars, cur, inQuotes) == LineFields(line)
      decreases |chars|
    {
      var c := chars[0];
      var after := chars[1..];
      if c == '"' && inQuotes {
        if after != "" && after[0] == '"' {
          cur := cur + ['"'];
          assert after[1..] == chars[2..];
          after := after[1..];
        } else {
          inQuotes := false;
        }
      } else if c == '"' && Trim(cur) == "" {
        cur, inQuotes := "", true;
      } else if c == ',' && !inQuotes {
        Reassociate(fields, [Trim(cur)], Fields(after, "", false));
        fields, cur := fields + [Trim(cur)], "";
      } else {
        cur := cur + [c];
      }
      chars := after;
    }
    fields := fields + [Trim(cur)];
  }

  // ---- import_csv ------------------------------------------------------------------------------

  function StripCr(s: string): string {
    if s != "" && s[|s| - 1] == '\r' then s[..|s| - 1] else s
  }

  /** `str::lines`: `\n` or `\r\n` ends a line, and an empty last line does not count. */
  function Lines(s: string): seq<string>
    decreases |s|
  {
    if s == "" then []
    else
      var i := IndexOf(s, '\n');
      if i == |s| then [s] else [StripCr(s[..i])] + Lines(s[i + 1..])
  }

  function LowerAscii(c: char): char {
    if 'A' <= c <= 'Z' then (c as int + 32) as char else c
  }

  predicate EqIgnoreAsciiCase(a: string, b: string) {
    |a| == |b| && forall i :: 0 <= i < |a| ==> LowerAscii(a[i]) == LowerAscii(b[i])
  }

  /** The first row is a header when its first field says so. */
  predicate IsHeader(fields: seq<string>) {
    |fields| > 0 && EqIgnoreAsciiCase(fields[0], "source_lang")
  }

  /** What reading the lines from index `i` on gives; `first` until a row has been seen. */
  function Rows(lines: seq<string>, i: nat, first: bool): Result<seq<NewEntry>, CsvError>
    requires i <= |lines|
    decreases |lines| - i
  {
    if i == |lines| then Ok([])
    else if AllSpace(lines[i]) then Rows(lines, i + 1, first)
    else
      var f := LineFields(lines[i]);
      if first && IsHeader(f) then Rows(lines, i + 1, false)
      else if |f| != 4 then Err(FieldCount(i + 1, |f|))
      else Prepend(NewEntry(f[0], f[1], f[2], f[3]), Rows(lines, i + 1, false))
  }

  function Prepend(e: NewEntry, r: Result<seq<NewEntry>, CsvError>): Result<seq<NewEntry>, CsvError> {
    match r
    case Ok(rows) => Ok([e] + rows)
    case Err(_) => r
  }

  function PrependAll(es: seq<NewEntry>, r: Result<seq<NewEntry>, CsvError>): Result<seq<NewEntry>, CsvError> {
    match r
    case Ok(rows) => Ok(es + rows)
    case Err(_) => r
  }

  method ImportCsv(csv: string) returns (r: Result<seq<NewEntry>, CsvError>)
    ensures r == Rows(Lines(csv), 0, true)
  {
    var out: seq<NewEntry> := [];
    var firstRow := true;
    var lines := Lines(csv);
    PrependNone(Rows(lines, 0, true));
    for i := 0 to |lines|
      invariant PrependAll(out, Rows(lines, i, firstRow)) == Rows(lines, 0, true)
    {
      if Trim(lines[i]) == "" {
        continue;
      }
      var fields := SplitCsvLine(lines[i]);
      if firstRow {
        firstRow := false;
        if IsHeader(fields) {
          continue;
        }
      }
      if |fields| != 4 {
        return Err(FieldCount(i + 1, |fields|));
      }
      var e := NewEntry(fields[0], fields[1], fields[2], fields[3]);
      PrependOne(out, e, Rows(lines, i + 1, false));
      out := out + [e];
    }
    assert out + [] == out;
    return Ok(out);
  }

  lemma PrependNone(r: Result<seq<NewEntry>, CsvError>)
    ensures PrependAll([], r) == r
  {
    if r.Ok? {
      assert [] + r.value == r.value;
    }
  }

  lemma PrependOne(es: seq<NewEntry>, e: NewEntry, r: Result<seq<NewEntry>, CsvError>)
    ensures PrependAll(es, Prepend(e, r)) == PrependAll(es + [e], r)
  {
    if r.Ok? {
      assert es + ([e] + r.value) == (es + [e]) + r.value;
    }
  }

  // ---- Header and refusals -----------------------------------------------------------------------

  /** `s` is spelt with the letters of `lower` or `upper`, place by place. */
  predicate SpeltBy(s: string, lower: string, upper: string)
    requires |lower| == |upper|
  {
    |s| == |lower| && forall i :: 0 <= i < |s| ==> s[i] == lower[i] || s[i] == upper[i]
  }

  lemma HeaderExactlyWhen(fields: seq<string>, lower: string, upper: string)
    requires lower == "source_lang" && upper == "SOURCE_LANG"
    ensures IsHeader(fields) <==> |fields| > 0 && SpeltBy(fields[0], lower, upper)
  {
    if |fields| > 0 && |fields[0]| == 11 {
      assert |lower| == 11 && |upper| == 11;
      forall i | 0 <= i < 11
        ensures LowerAscii(fields[0][i]) == LowerAscii(lower[i]) <==> fields[0][i] == lower[i] || fields[0][i] == upper[i]
      {
        LetterOf(fields[0][i], lower, upper, i);
      }
    }
  }

  lemma LetterOf(c: char, lower: string, upper: string, i: nat)
    requires i < 11 && lower == "source_lang" && upper == "SOURCE_LANG"
    ensures LowerAscii(c) == LowerAscii(lower[i]) <==> c == lower[i] || c == upper[i]
  {
    assert lower[i] == '_' || (lower[i] as int == upper[i] as int + 32 && 'a' <= lower[i] <= 'z');
  }

  /** The lines in front of line `n` are all white space. */
  predicate BlankUpTo(lines: seq<string>, n: nat)
    requires n <= |lines|
  {
    forall i :: 0 <= i < n ==> AllSpace(lines[i])
  }

  /** Line `i` passes without a complaint: blank, a header in front of every row, or four fields. */
  predicate Passes(lines: seq<string>, i: nat)
    requires i < |lines|
  {
    AllSpace(lines[i]) || |LineFields(lines[i])| == 4 || (BlankUpTo(lines, i) && IsHeader(LineFields(lines[i])))
  }

  lemma RowsStep(lines: seq<string>, i: nat, first: bool)
    requires i < |lines| && (first <==> BlankUpTo(lines, i))
    ensures var r, next := Rows(lines, i, first), first && AllSpace(lines[i]);
      if Passes(lines, i)
      then Rows(lines, i + 1, next).Err? <==> r.Err? && r == Rows(lines, i + 1, next)
      else r == Err(FieldCount(i + 1, |LineFields(lines[i])|))
    ensures first && AllSpace(lines[i]) <==> BlankUpTo(lines, i + 1)
  {
  }

  /** Reading fails at line `n` exactly when that is the first line with a complaint, and says how many fields it has. */
  lemma {:induction false} RowsFail(lines: seq<string>, i: nat, first: bool, n: nat, got: nat)
    requires i <= |lines| && (first <==> BlankUpTo(lines, i))
    ensures Rows(lines, i, first) == Err(FieldCount(n + 1, got)) <==> FailsAt(lines, i, n, got)
    decreases |lines| - i
  {
    if i < |lines| {
      RowsStep(lines, i, first);
      RowsFail(lines, i + 1, first && AllSpace(lines[i]), n, got);
    }
  }

  predicate FailsAt(lines: seq<string>, i: nat, n: nat, got: nat) {
    && i <= n < |lines|
    && (forall k :: i <= k < n ==> Passes(lines, k))
    && !Passes(lines, n) && |LineFields(lines[n])| == got
  }

  /**
    An import fails with line number `n` exactly when that line, counted from 1, is the first that is
    neither white space, nor a header in front of every row, nor four fields.
   */
  lemma ImportFailsExactlyWhen(csv: string, n: nat, got: nat)
    ensures Rows(Lines(csv), 0, true) == Err(FieldCount(n + 1, got)) <==> FailsAt(Lines(csv), 0, n, got)
  {
    RowsFail(Lines(csv), 0, true, n, got);
  }

  // ---- Printing, and reading back ----------------------------------------------------------------

  /** A field as it stands in a file: quoted, or bare where that is unambiguous. */
  datatype Cell = Quoted(text: string) | Bare(text: string)

  /**
    Any one-line text may be quoted. Bare text must be trimmed, must hold no comma, and must not
    open with a quote.
   */
  predicate Printable(c: Cell) {
    '\n' !in c.text &&
    (c.Bare? ==> ',' !in c.text && Trimmed(c.text) && (c.text == "" || c.text[0] != '"'))
  }

  /** Quotes are escaped by doubling, section 2 of RFC 4180. */
  function Escape(s: string): string {
    if s == "" then "" else (if s[0] == '"' then ['"', '"'] else [s[0]]) + Escape(s[1..])
  }

  function ShowCell(c: Cell): string {
    match c
    case Quoted(text) => ['"'] + (Escape(text) + ['"'])
    case Bare(text) => text
  }

  function ShowCells(cells: seq<Cell>): string
    requires |cells| >= 1
  {
    if |cells| == 1 then ShowCell(cells[0]) else ShowCell(cells[0]) + ([','] + ShowCells(cells[1..]))
  }

  /** The texts of some cells, each put through `trim`. */
  function TextsBy(cells: seq<Cell>, trim: string -> string): seq<string> {
    if cells == [] then [] else [trim(cells[0].text)] + TextsBy(cells[1..], trim)
  }

  function Texts(cells: seq<Cell>): seq<string> {
    TextsBy(cells, Trim)
  }

  lemma {:induction false} FieldsEscapedText(text: string, more: string, cur: string)
    ensures Fields(Escape(text) + more, cur, true) == Fields(more, cur + text, true)
  {
    if text == "" {
      NothingEscaped(text, more, cur);
    } else {
      FieldsEscapedText(text[1..], more, cur + [text[0]]);
      FieldsEscapedStep(text, more, cur);
    }
  }

  lemma NothingEscaped(text: string, more: string, cur: string)
    requires text == ""
    ensures Escape(text) + more == more && cur + text == cur
  {
  }

  lemma FieldsEscapedStep(text: string, more: string, cur: string)
    requires text != ""
    requires Fields(Escape(text[1..]) + more, cur + [text[0]], true) == Fields(more, cur + [text[0]] + text[1..], true)
    ensures Fields(Escape(text) + more, cur, true) == Fields(more, cur + text, true)
  {
    FieldsOneMore(text, more, cur);
    SplitFirst(cur, text);
  }

  lemma SplitFirst(cur: string, text: string)
    requires text != ""
    ensures cur + text == cur + [text[0]] + text[1..]
  {
  }

  /** Inside quotes everything up to the closing quote is the field, doubled quotes included. */
  lemma FieldsQuoted(text: string, rest: string, cur: string)
    requires rest == "" || rest[0] != '"'
    ensures Fields(Escape(text) + (['"'] + rest), cur, true) == Fields(rest, cur + text, false)
  {
    FieldsEscapedText(text, ['"'] + rest, cur);
    FieldsClosed(rest, cur + text);
  }

  lemma FieldsClosed(rest: string, cur: string)
    requires rest == "" || rest[0] != '"'
    ensures Fields(['"'] + rest, cur, true) == Fields(rest, cur, false)
  {
    assert (['"'] + rest)[1..] == rest;
  }

  lemma FieldsOneMore(text: string, more: string, cur: string)
    requires text != ""
    ensures Fields(Escape(text) + more, cur, true) == Fields(Escape(text[1..]) + more, cur + [text[0]], true)
  {
    EscapedHead(text, more);
    FieldsEscaped(Escape(text) + more, Escape(text[1..]) + more, text[0], cur);
  }

  lemma FieldsEscaped(s: string, tail: string, c: char, cur: string)
    requires if c == '"' then |s| > 1 && s[0] == '"' && s[1] == '"' && s[2..] == tail
      else s != "" && s[0] == c && s[1..] == tail
    ensures Fields(s, cur, true) == Fields(tail, cur + [c], true)
  {
  }

  lemma EscapedHead(text: string, more: string)
    requires text != ""
    ensures var s := Escape(text) + more; var tail := Escape(text[1..]) + more;
      if text[0] == '"' then |s| > 1 && s[0] == '"' && s[1] == '"' && s[2..] == tail
      else s != "" && s[0] == text[0] && s[1..] == tail
  {
    var head := if text[0] == '"' then ['"', '"'] else [text[0]];
    DropHead(head, Escape(text[1..]), more);
  }

  lemma DropHead(head: string, e: string, more: string)
    ensures var s := (head + e) + more; |s| >= |head| && s[..|head|] == head && s[|head|..] == e + more
    ensures forall k :: 0 <= k < |head| ==> ((head + e) + more)[k] == head[k]
  {
  }

  /** Outside quotes, text that opened with a visible character is taken as it stands. */
  lemma {:induction false} FieldsBare(text: string, rest: string, cur: string)
    requires ',' !in text && (AllSpace(cur) ==> cur == "" && (text == "" || (text[0] != '"' && !IsSpace(text[0]))))
    ensures Fields(text + rest, cur, false) == Fields(rest, cur + text, false)
  {
    if text == "" {
      assert text + rest == rest && cur + text == cur;
    } else {
      var s := text + rest;
      assert s[0] == text[0] && s[1..] == text[1..] + rest;
      assert text[0] in text;
      var next := cur + [text[0]];
      StaysVisible(cur, text[0]);
      FieldsBare(text[1..], rest, next);
      assert next + text[1..] == cur + text;
    }
  }

  lemma StaysVisible(cur: string, c: char)
    requires !AllSpace(cur) || !IsSpace(c)
    ensures !AllSpace(cur + [c])
  {
    var s := cur + [c];
    assert s[|cur|] == c;
    assert forall i :: 0 <= i < |cur| ==> s[i] == cur[i];
  }

  /** One printed cell is read back, whatever follows it, as long as that is not a quote. */
  lemma FieldsCell(c: Cell, rest: string)
    requires Printable(c) && (rest == "" || rest[0] != '"')
    ensures Fields(ShowCell(c) + rest, "", false) == Fields(rest, c.text, false)
  {
    match c
    case Quoted(text) =>
      OpeningQuote(text, rest);
      FieldsQuoted(text, rest, "");
      assert "" + text == text;
    case Bare(text) =>
      FieldsBare(text, rest, "");
      assert "" + text == text;
  }

  lemma OpeningQuote(text: string, rest: string)
    ensures var s := ShowCell(Quoted(text)) + rest; s != "" && s[0] == '"' && s[1..] == Escape(text) + (['"'] + rest)
  {
    DropHead(['"'], Escape(text) + ['"'], rest);
    Reassociate(Escape(text), ['"'], rest);
  }

  /** White space in front of the opening quote does not count. */
  lemma {:induction false} FieldsPadded(space: string, cur: string, quoted: string, none: string)
    requires AllSpace(space) && ',' !in space && AllSpace(cur) && none == "" && quoted != "" && quoted[0] == '"'
    ensures Fields(space + quoted, cur, false) == Fields(quoted[1..], none, true)
    decreases |space|
  {
    if space == "" {
      assert space + quoted == quoted;
    } else {
      PaddedStep(space, cur, quoted);
      FieldsPadded(space[1..], cur + [space[0]], quoted, none);
    }
  }

  lemma PaddedStep(space: string, cur: string, quoted: string)
    requires AllSpace(space) && ',' !in space && AllSpace(cur) && space != ""
    ensures Fields(space + quoted, cur, false) == Fields(space[1..] + quoted, cur + [space[0]], false)
    ensures AllSpace(space[1..]) && ',' !in space[1..] && AllSpace(cur + [space[0]])
  {
    var s := space + quoted;
    assert s[0] == space[0] && s[0] in space && s[1..] == space[1..] + quoted;
    assert IsSpace(s[0]) && s[0] != '"';
  }

  /** A quote that is never closed runs to the end of the line. */
  lemma FieldsUnclosed(text: string, cur: string, none: string)
    requires none == ""
    ensures Fields(Escape(text), cur, true) == [Trim(cur + text)]
  {
    FieldsEscapedText(text, none, cur);
    assert Escape(text) + none == Escape(text);
  }

  /** A comma outside quotes ends a field. */
  lemma FieldsAtComma(tail: string, cur: string, none: string)
    requires none == ""
    ensures Fields([','] + tail, cur, false) == [Trim(cur)] + Fields(tail, none, false)
  {
    assert ([','] + tail)[1..] == tail;
  }

  lemma FirstCell(c: Cell, tail: string, none: string)
    requires Printable(c) && none == ""
    ensures Fields(ShowCell(c) + ([','] + tail), none, false) == [Trim(c.text)] + Fields(tail, none, false)
  {
    FieldsCell(c, [','] + tail);
    FieldsAtComma(tail, c.text, none);
  }

  lemma LastCell(c: Cell, none: string)
    requires Printable(c) && none == ""
    ensures Fields(ShowCell(c), none, false) == [Trim(c.text)]
  {
    FieldsCell(c, none);
    assert ShowCell(c) + none == ShowCell(c);
  }

  lemma {:induction false} FieldsCells(cells: seq<Cell>, none: string)
    requires none == "" && |cells| >= 1 && forall k :: 0 <= k < |cells| ==> Printable(cells[k])
    ensures Fields(ShowCells(cells), none, false) == Texts(cells)
    decreases |cells|
  {
    if |cells| == 1 {
      LastCell(cells[0], none);
      assert Texts(cells[1..]) == [];
    } else {
      FirstCell(cells[0], ShowCells(cells[1..]), none);
      FieldsCells(cells[1..], none);
    }
  }

  /** A line of a glossary file: four cells, or nothing but white space. */
  datatype FileLine = Row(cells: seq<Cell>, crlf: bool) | Blank(space: string, crlf: bool)

  predicate WellFormed(l: FileLine) {
    match l
    case Row(cells, _) => |cells| == 4 && forall k :: 0 <= k < 4 ==> Printable(cells[k])
    case Blank(space, _) => AllSpace(space) && '\n' !in space
  }

  predicate AllWellFormed(file: seq<FileLine>) {
    forall k :: 0 <= k < |file| ==> WellFormed(file[k])
  }

  function LineText(l: FileLine): string
    requires WellFormed(l)
  {
    match l
    case Row(cells, _) => ShowCells(cells)
    case Blank(space, _) => space
  }

  /** The text of a file: every line but the last is ended by `\n` or `\r\n`; the last is not. */
  function ShowFile(file: seq<FileLine>): string
    requires AllWellFormed(file)
  {
    if file == [] then ""
    else if |file| == 1 then LineText(file[0])
    else LineText(file[0]) + (if file[0].crlf then ['\r', '\n'] else ['\n']) + ShowFile(file[1..])
  }

  /** The entry of a row. */
  function EntryOf(cells: seq<Cell>): NewEntry
    requires |cells| == 4
  {
    var t := Texts(cells);
    TextsLength(cells, Trim);
    NewEntry(t[0], t[1], t[2], t[3])
  }

  /** The entries a file holds, each field trimmed. */
  function Entries(file: seq<FileLine>): seq<NewEntry>
    requires AllWellFormed(file)
  {
    if file == [] then []
    else if file[0].Blank? then Entries(file[1..])
    else [EntryOf(file[0].cells)] + Entries(file[1..])
  }

  lemma TextsLength(cells: seq<Cell>, trim: string -> string)
    ensures |TextsBy(cells, trim)| == |cells|
  {
  }

  /** The entries that survive reading: all of them, but for a leading row that looks like a header. */
  function WithoutHeader(entries: seq<NewEntry>, first: bool): seq<NewEntry> {
    if first && entries != [] && EqIgnoreAsciiCase(entries[0].sourceLang, "source_lang") then entries[1..]
    else entries
  }

  /** A printed row holds no newline, ends in no carriage return and is not blank. */
  lemma {:induction false} ShowCellsShape(cells: seq<Cell>)
    requires |cells| >= 1 && forall k :: 0 <= k < |cells| ==> Printable(cells[k])
    ensures var s := ShowCells(cells); '\n' !in s && (s == "" || s[|s| - 1] != '\r')
    ensures |cells| > 1 ==> ',' in ShowCells(cells)
  {
    CellShape(cells[0]);
    if |cells| > 1 {
      ShowCellsShape(cells[1..]);
      var s := ShowCells(cells);
      assert s[|ShowCell(cells[0])|] == ',';
    }
  }

  lemma CellShape(c: Cell)
    requires Printable(c)
    ensures var s := ShowCell(c); '\n' !in s && (s == "" || s[|s| - 1] != '\r')
  {
    if c.Quoted? {
      EscapeShape(c.text);
    }
  }

  lemma {:induction false} EscapeShape(s: string)
    requires '\n' !in s
    ensures '\n' !in Escape(s)
  {
    if s == "" {
    } else {
      EscapeShape(s[1..]);
    }
  }

  /** The line as the splitter sees it: a row unchanged, a blank line still blank. */
  predicate Denotes(line: string, l: FileLine)
    requires WellFormed(l)
  {
    match l
    case Row(cells, _) => line == ShowCells(cells)
    case Blank(_, _) => AllSpace(line)
  }

  predicate DenoteAll(lines: seq<string>, file: seq<FileLine>)
    requires AllWellFormed(file)
  {
    |lines| == |file| && forall k :: 0 <= k < |file| ==> Denotes(lines[k], file[k])
  }

  lemma OneLine(l: FileLine)
    requires WellFormed(l)
    ensures '\n' !in LineText(l)
    ensures Denotes(LineText(l), l) && Denotes(StripCr(LineText(l)), l) && Denotes(StripCr(LineText(l) + ['\r']), l)
  {
    if l.Row? {
      ShowCellsShape(l.cells);
    }
    var t := LineText(l);
    assert (t + ['\r'])[..|t|] == t;
  }

  /** The lines the reader sees: an empty last line does not count. */
  function Seen(file: seq<FileLine>): (r: seq<FileLine>)
    requires AllWellFormed(file)
    ensures AllWellFormed(r)
  {
    if file == [] || (|file| == 1 && LineText(file[0]) == "") then []
    else [file[0]] + Seen(file[1..])
  }

  /** The line reader finds the lines that were printed. */
  lemma {:induction false} LinesOfFile(file: seq<FileLine>)
    requires AllWellFormed(file)
    ensures DenoteAll(Lines(ShowFile(file)), Seen(file))
  {
    if file == [] {
    } else if |file| == 1 {
      OneLine(file[0]);
      LastLine(LineText(file[0]));
      assert Seen(file[1..]) == [];
    } else {
      OneLine(file[0]);
      LinesOfFile(file[1..]);
      var line := StripCr(if file[0].crlf then LineText(file[0]) + ['\r'] else LineText(file[0]));
      FirstLine(LineText(file[0]), file[0].crlf, ShowFile(file[1..]));
      DenoteCons(line, file[0], Lines(ShowFile(file[1..])), Seen(file[1..]));
    }
  }

  lemma DenoteCons(line: string, l: FileLine, lines: seq<string>, file: seq<FileLine>)
    requires WellFormed(l) && Denotes(line, l) && AllWellFormed(file) && DenoteAll(lines, file)
    ensures DenoteAll([line] + lines, [l] + file)
  {
  }

  lemma LastLine(t: string)
    requires '\n' !in t
    ensures Lines(t) == if t == "" then [] else [t]
  {
    var i := IndexOf(t, '\n');
    assert forall j :: 0 <= j < |t| ==> t[j] in t;
  }

  lemma FirstLine(t: string, crlf: bool, rest: string)
    requires '\n' !in t
    ensures Lines(t + (if crlf then ['\r', '\n'] else ['\n']) + rest)
      == [StripCr(if crlf then t + ['\r'] else t)] + Lines(rest)
  {
    var u := if crlf then t + ['\r'] else t;
    var s := t + (if crlf then ['\r', '\n'] else ['\n']) + rest;
    assert s == u + ['\n'] + rest;
    FirstIndex(u, '\n', rest);
  }

  lemma FirstIndex(u: string, c: char, rest: string)
    requires c !in u
    ensures var s := u + [c] + rest;
      IndexOf(s, c) == |u| && |u| < |s| && s[..|u|] == u && s[|u| + 1..] == rest
  {
    var s := u + [c] + rest;
    var i := IndexOf(s, c);
    assert s[|u|] == c;
    assert forall j :: 0 <= j < |u| ==> s[j] == u[j] && u[j] in u;
    assert forall j :: 0 <= j < i ==> s[j] == s[..i][j] && s[..i][j] in s[..i];
  }

  /** Reading lines that denote a file gives its entries. */
  lemma {:induction false} RowsOfFile(lines: seq<string>, file: seq<FileLine>, i: nat, first: bool)
    requires AllWellFormed(file) && DenoteAll(lines, file) && i <= |file|
    ensures Rows(lines, i, first) == Ok(WithoutHeader(Entries(file[i..]), first))
    decreases |file| - i
  {
    if i < |file| {
      assert file[i..][0] == file[i] && file[i..][1..] == file[i + 1..];
      assert Denotes(lines[i], file[i]);
      if file[i].Blank? {
        RowsOfFile(lines, file, i + 1, first);
      } else {
        RowsOfFile(lines, file, i + 1, false);
        OneRow(lines, i, first, file[i].cells, Entries(file[i + 1..]));
      }
    }
  }

  lemma OneRow(lines: seq<string>, i: nat, first: bool, cells: seq<Cell>, later: seq<NewEntry>)
    requires i < |lines| && |cells| == 4 && (forall k :: 0 <= k < 4 ==> Printable(cells[k]))
    requires lines[i] == ShowCells(cells) && Rows(lines, i + 1, false) == Ok(later)
    ensures |Texts(cells)| == 4
    ensures var t := Texts(cells);
      && Rows(lines, i, first) == Ok(WithoutHeader([NewEntry(t[0], t[1], t[2], t[3])] + later, first))
  {
    RowIsRead(cells, lines[i]);
    TextsLength(cells, Trim);
  }

  lemma RowIsRead(cells: seq<Cell>, line: string)
    requires |cells| == 4 && (forall k :: 0 <= k < 4 ==> Printable(cells[k])) && line == ShowCells(cells)
    ensures LineFields(line) == Texts(cells) && !AllSpace(line)
  {
    var none := "";
    ShowCellsShape(cells);
    FieldsCells(cells, none);
    FieldsOfLine(line, none);
    WithComma(line);
  }

  lemma FieldsOfLine(line: string, none: string)
    requires none == "" && (line == "" || line[|line| - 1] != '\r')
    ensures LineFields(line) == Fields(line, none, false)
  {
  }

  lemma WithComma(line: string)
    requires ',' in line
    ensures !AllSpace(line)
  {
    var k :| 0 <= k < |line| && line[k] == ',';
    assert !IsSpace(line[k]);
  }

  /**
    Round trip: whatever mixture of quoting, blank lines and line endings a file is printed
    with, reading it returns its entries with every field trimmed; exactly a first row whose
    first field spells `source_lang` is taken for a header and dropped.
   */
  lemma ImportInvertsPrinting(file: seq<FileLine>)
    requires AllWellFormed(file)
    ensures Rows(Lines(ShowFile(file)), 0, true) == Ok(WithoutHeader(Entries(file), true))
  {
    LinesOfFile(file);
    RowsOfFile(Lines(ShowFile(file)), Seen(file), 0, true);
    assert Seen(file)[0..] == Seen(file);
    EntriesOfSeen(file);
  }

  lemma {:induction false} EntriesOfSeen(file: seq<FileLine>)
    requires AllWellFormed(file)
    ensures Entries(Seen(file)) == Entries(file)
  {
    if file == [] {
    } else if |file| == 1 && LineText(file[0]) == "" {
      EmptyIsBlank(file[0]);
    } else {
      EntriesOfSeen(file[1..]);
      assert Seen(file)[1..] == Seen(file[1..]);
    }
  }

  lemma EmptyIsBlank(l: FileLine)
    requires WellFormed(l) && LineText(l) == ""
    ensures l.Blank?
  {
    if l.Row? {
      ShowCellsShape(l.cells);
    }
  }

  // ---- What can be printed -----------------------------------------------------------------------

  /** No field holds a newline. */
  predicate FitsLine(e: NewEntry) {
    '\n' !in e.sourceLang && '\n' !in e.targetLang && '\n' !in e.sourceTerm && '\n' !in e.targetTerm
  }

  predicate IsTrimmed(e: NewEntry) {
    && Trim(e.sourceLang) == e.sourceLang && Trim(e.targetLang) == e.targetLang
    && Trim(e.sourceTerm) == e.sourceTerm && Trim(e.targetTerm) == e.targetTerm
  }

  predicate AllFit(entries: seq<NewEntry>) {
    forall k :: 0 <= k < |entries| ==> FitsLine(entries[k])
  }

  predicate AllTrimmed(entries: seq<NewEntry>) {
    forall k :: 0 <= k < |entries| ==> IsTrimmed(entries[k])
  }

  /** Every field quoted, one entry per line. */
  function QuotedLine(e: NewEntry): FileLine {
    Row([Quoted(e.sourceLang), Quoted(e.targetLang), Quoted(e.sourceTerm), Quoted(e.targetTerm)], false)
  }

  function QuotedFile(entries: seq<NewEntry>): seq<FileLine> {
    if entries == [] then [] else [QuotedLine(entries[0])] + QuotedFile(entries[1..])
  }

  lemma QuotedLineReads(e: NewEntry)
    requires FitsLine(e) && IsTrimmed(e)
    ensures WellFormed(QuotedLine(e)) && EntryOf(QuotedLine(e).cells) == e
  {
    var cells := QuotedLine(e).cells;
    TextsByAt(cells, 0, Trim);
    TextsByAt(cells, 1, Trim);
    TextsByAt(cells, 2, Trim);
    TextsByAt(cells, 3, Trim);
  }

  lemma EntriesFirst(file: seq<FileLine>, e: NewEntry, later: seq<NewEntry>)
    requires AllWellFormed(file) && file != [] && file[0].Row?
    requires EntryOf(file[0].cells) == e && Entries(file[1..]) == later
    ensures Entries(file) == [e] + later
  {
  }

  lemma {:induction false} QuotedFileReads(entries: seq<NewEntry>)
    requires AllFit(entries) && AllTrimmed(entries)
    ensures AllWellFormed(QuotedFile(entries)) && Entries(QuotedFile(entries)) == entries
  {
    if entries == [] {
    } else {
      var first, more := QuotedLine(entries[0]), QuotedFile(entries[1..]);
      QuotedLineReads(entries[0]);
      QuotedFileReads(entries[1..]);
      FileCons(first, more, entries);
    }
  }

  lemma FileCons(first: FileLine, more: seq<FileLine>, entries: seq<NewEntry>)
    requires WellFormed(first) && first.Row? && AllWellFormed(more) && entries != []
    requires EntryOf(first.cells) == entries[0] && Entries(more) == entries[1..]
    ensures AllWellFormed([first] + more) && Entries([first] + more) == entries
  {
    WellFormedCons(first, more);
    EntriesFirst([first] + more, EntryOf(first.cells), entries[1..]);
    assert [entries[0]] + entries[1..] == entries;
  }

  lemma WellFormedCons(first: FileLine, more: seq<FileLine>)
    requires WellFormed(first) && AllWellFormed(more)
    ensures AllWellFormed([first] + more) && ([first] + more)[1..] == more
  {
  }

  lemma PartKeepsOut(s: string, from: nat, to: nat, c: char)
    requires c !in s && from <= to <= |s|
    ensures c !in s[from..to]
  {
    assert forall k :: 0 <= k < to - from ==> s[from..to][k] == s[from + k];
  }

  lemma TrimKeepsOut(s: string, c: char)
    requires c !in s
    ensures c !in Trim(s)
  {
    var t := TrimStart(s);
    PartKeepsOut(s, |s| - |t|, |s|, c);
    var r := TrimEnd(t);
    PartKeepsOut(t, 0, |r|, c);
    assert r == t[0..|r|] && t == s[|s| - |t|..|s|];
  }

  lemma CellsFit(cells: seq<Cell>)
    requires |cells| == 4 && forall k :: 0 <= k < 4 ==> Printable(cells[k])
    ensures FitsLine(EntryOf(cells))
  {
    TextsLength(cells, Trim);
    forall k | 0 <= k < 4 ensures '\n' !in Texts(cells)[k] {
      TextsByAt(cells, k, Trim);
      TrimKeepsOut(cells[k].text, '\n');
    }
  }

  lemma {:induction false} TextsByAt(cells: seq<Cell>, k: nat, trim: string -> string)
    requires k < |cells|
    ensures |TextsBy(cells, trim)| == |cells| && TextsBy(cells, trim)[k] == trim(cells[k].text)
    decreases k
  {
    TextsLength(cells, trim);
    if k == 0 {
    } else {
      TextsByAt(cells[1..], k - 1, trim);
    }
  }

  lemma {:induction false} EntriesFit(file: seq<FileLine>)
    requires AllWellFormed(file)
    ensures AllFit(Entries(file))
  {
    if file == [] {
    } else {
      EntriesFit(file[1..]);
      if file[0].Row? {
        CellsFit(file[0].cells);
        var e, later := EntryOf(file[0].cells), Entries(file[1..]);
        EntriesFirst(file, e, later);
        FitCons(e, later);
      }
    }
  }

  lemma FitCons(e: NewEntry, later: seq<NewEntry>)
    requires FitsLine(e) && AllFit(later)
    ensures AllFit([e] + later)
  {
  }

  /** Trimmed entries can be printed exactly when no field holds a newline. */
  lemma PrintableExactlyWhen(entries: seq<NewEntry>)
    requires AllTrimmed(entries)
    ensures (exists file :: AllWellFormed(file) && Entries(file) == entries) <==> AllFit(entries)
  {
    if file :| AllWellFormed(file) && Entries(file) == entries {
      EntriesFit(file);
    }
    if AllFit(entries) {
      QuotedFileReads(entries);
    }
  }

  // ---- No text at all reads as a field with a newline ---------------------------------------------

  predicate AllLack(texts: seq<string>, c: char) {
    texts == [] || (c !in texts[0] && AllLack(texts[1..], c))
  }

  lemma {:induction false} LackAt(texts: seq<string>, c: char, k: nat)
    requires AllLack(texts, c) && k < |texts|
    ensures c !in texts[k]
    decreases k
  {
    if k == 0 {
    } else {
      LackAt(texts[1..], c, k - 1);
    }
  }

  lemma LackCons(first: string, rest: seq<string>, c: char)
    requires c !in first && AllLack(rest, c)
    ensures AllLack([first] + rest, c)
  {
    assert ([first] + rest)[1..] == rest;
  }

  lemma {:induction false} FieldsLack(s: string, cur: string, inQuotes: bool, c: char)
    requires c !in s && c !in cur && c != '"'
    ensures AllLack(Fields(s, cur, inQuotes), c)
    decreases |s|
  {
    TrimKeepsOut(cur, c);
    if s == "" {
      LackCons(Trim(cur), [], c);
    } else if s[0] == '"' && inQuotes {
      if |s| > 1 && s[1] == '"' {
        FieldsLack(s[2..], cur + ['"'], true, c);
      } else {
        FieldsLack(s[1..], cur, false, c);
      }
    } else if s[0] == '"' && AllSpace(cur) {
      FieldsLack(s[1..], "", true, c);
    } else if s[0] == ',' && !inQuotes {
      FieldsLack(s[1..], "", false, c);
      LackCons(Trim(cur), Fields(s[1..], "", false), c);
    } else {
      FieldsLack(s[1..], cur + [s[0]], inQuotes, c);
    }
  }

  lemma {:induction false} LinesLack(s: string)
    ensures AllLack(Lines(s), '\n')
    decreases |s|
  {
    var i := IndexOf(s, '\n');
    if s == "" {
    } else if i == |s| {
      assert s == s[..i];
      LackCons(s, [], '\n');
    } else {
      LinesLack(s[i + 1..]);
      assert '\n' !in StripCr(s[..i]);
      LackCons(StripCr(s[..i]), Lines(s[i + 1..]), '\n');
    }
  }

  lemma FieldsFit(f: seq<string>, c: char)
    requires |f| == 4 && AllLack(f, c) && c == '\n'
    ensures FitsLine(NewEntry(f[0], f[1], f[2], f[3]))
  {
    LackAt(f, c, 0);
    LackAt(f, c, 1);
    LackAt(f, c, 2);
    LackAt(f, c, 3);
  }

  lemma {:induction false} RowsFit(lines: seq<string>, i: nat, first: bool, c: char)
    requires i <= |lines| && AllLack(lines, c) && c == '\n'
    ensures Rows(lines, i, first).Ok? ==> AllFit(Rows(lines, i, first).value)
    decreases |lines| - i
  {
    if i == |lines| {
    } else {
      LackAt(lines, c, i);
      var line := lines[i];
      assert forall k :: 0 <= k < |TrimEndCr(line)| ==> TrimEndCr(line)[k] == line[k];
      FieldsLack(TrimEndCr(line), "", false, c);
      RowsFit(lines, i + 1, first, c);
      RowsFit(lines, i + 1, false, c);
      if |LineFields(line)| == 4 {
        FieldsFit(LineFields(line), c);
      }
    }
  }

  /**
    Entries whose fields are trimmed and whose first row is no header are what some text reads as
    exactly when no field holds a newline; then quoting every field is such a text.
   */
  lemma ReadableExactlyWhen(entries: seq<NewEntry>)
    requires AllTrimmed(entries) && WithoutHeader(entries, true) == entries
    ensures (exists csv :: Rows(Lines(csv), 0, true) == Ok(entries)) <==> AllFit(entries)
  {
    if csv :| Rows(Lines(csv), 0, true) == Ok(entries) {
      LinesLack(csv);
      RowsFit(Lines(csv), 0, true, '\n');
    }
    if AllFit(entries) {
      QuotedFileReads(entries);
      ImportInvertsPrinting(QuotedFile(entries));
    }
  }
}
