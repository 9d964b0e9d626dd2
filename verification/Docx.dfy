/**
  server/src/files.rs, `docx_extract`: the hand-written scan of `word/document.xml` for text
  runs. Unzipping is outside the model; entity decoding is the parameter `unescape`.
 */
module Docx {
  import opened Wrappers
  import opened Text
  import opened Sequences

  const RUN_OPEN := "<w:t"
  const RUN_CLOSE := "</w:t>"
  const PARA_CLOSE := "</w:p>"

  lemma OpensWith(s: string, p: string, i: int)
    requires OccursAt(s, p, i) && p != ""
    ensures s[i] == p[0]
  {
    assert s[i..i + |p|][0] == p[0];
  }

  /** What the scanner finds next, and the markup it goes on with. */
  datatype Found = Nothing | ParagraphEnd(rest: string) | Skipped(rest: string) | Run(raw: string, rest: string)

  function Next(s: string): (f: Found)
    ensures !f.Nothing? ==> |f.rest| < |s|
  {
    var t, p := Find(s, RUN_OPEN), Find(s, PARA_CLOSE);
    if p.Some? && (t.None? || p.value < t.value) then ParagraphEnd(s[p.value + |PARA_CLOSE|..])
    else if t.None? then Nothing
    else
      OpensWith(s, RUN_OPEN, t.value);
      RunAt(s[t.value..])
  }

  /** `after` opens with the run prefix; only `<w:t>`, `<w:t …>` and `<w:t/>` are text elements. */
  function RunAt(after: string): (f: Found)
    requires |after| >= 4 && after[0] == '<'
    ensures !f.Nothing? ==> |f.rest| < |after|
  {
    if |after| == 4 || after[4] !in {'>', ' ', '/'} then Skipped(after[4..])
    else
      var gt := IndexOf(after, '>');
      if gt == |after| then Nothing
      else if after[gt - 1] == '/' then Skipped(after[gt + 1..])
      else Content(after[gt + 1..])
  }

  function Content(content: string): (f: Found)
    ensures !f.Nothing? ==> |f.rest| <= |content|
  {
    match Find(content, RUN_CLOSE)
    case None => Nothing
    case Some(end) => Run(content[..end], content[end + |RUN_CLOSE|..])
  }

  /** The decoded text of a run, or the raw text when it cannot be decoded. */
  function Decoded(raw: string, unescape: string -> Option<string>): string {
    match unescape(raw)
    case Some(text) => text
    case None => raw
  }

  /** The plain text of `s`. */
  function Extracted(s: string, unescape: string -> Option<string>): string
    decreases |s|
  {
    match Next(s)
    case Nothing => ""
    case ParagraphEnd(rest) => ['\n'] + Extracted(rest, unescape)
    case Skipped(rest) => Extracted(rest, unescape)
    case Run(raw, rest) => Decoded(raw, unescape) + Extracted(rest, unescape)
  }

  method ExtractText(xml: string, unescape: string -> Option<string>) returns (out: string)
    ensures out == Extracted(xml, unescape)
  {
    out := "";
    var s := xml;
    while true
      invariant out + Extracted(s, unescape) == Extracted(xml, unescape)
      decreases |s|
    {
      var nextT, nextP := Find(s, RUN_OPEN), Find(s, PARA_CLOSE);
      if nextT.None? && nextP.None? {
        break;
      }
      if nextP.Some? && (nextT.None? || nextP.value < nextT.value) {
        var rest := s[nextP.value + |PARA_CLOSE|..];
        Reassociate(out, ['\n'], Extracted(rest, unescape));
        out := out + ['\n'];
        s := rest;
        continue;
      }
      OpensWith(s, RUN_OPEN, nextT.value);
      var after := s[nextT.value..];
      if |after| == 4 || after[4] !in {'>', ' ', '/'} {
        s := after[4..];
        continue;
      }
      var gt := IndexOf(after, '>');
      if gt == |after| {
        break;
      }
      if after[gt - 1] == '/' {
        s := after[gt + 1..];
        continue;
      }
      var content := after[gt + 1..];
      var end := Find(content, RUN_CLOSE);
      if end.None? {
        break;
      }
      var raw, rest := content[..end.value], content[end.value + |RUN_CLOSE|..];
      Reassociate(out, Decoded(raw, unescape), Extracted(rest, unescape));
      out := out + Decoded(raw, unescape);
      s := rest;
    }
    assert out + "" == out;
  }

  // ---- Documents -----------------------------------------------------------------------------------

  /** The pieces of a document body. `attrs` is everything between the element name and `>` or `/>`. */
  datatype Token =
    | TextRun(attrs: string, text: string)
    | RawRun(attrs: string, raw: string)
    | EmptyRun(attrs: string)
    | ParaEnd
    | Markup(body: string)
    | Filler(chars: string)

  /** How entities are written and read: nothing but the escaped text's own `<` matters to the scan. */
  ghost predicate EscapesInto(escape: string -> string, unescape: string -> Option<string>) {
    forall t :: EscapesOne(escape, unescape, t)
  }

  ghost predicate EscapesOne(escape: string -> string, unescape: string -> Option<string>, t: string) {
    '<' !in escape(t) && unescape(escape(t)) == Some(t)
  }

  predicate IsAttributes(attrs: string) {
    attrs == "" || (attrs[0] == ' ' && '>' !in attrs && '<' !in attrs)
  }

  /** The attributes of a run with content do not end so that it looks self-closing. */
  predicate IsOpening(attrs: string) {
    IsAttributes(attrs) && (attrs == "" || attrs[|attrs| - 1] != '/')
  }

  /** Markup that is neither a text element nor a paragraph end. */
  predicate IsOther(body: string) {
    '<' !in body && '>' !in body && body != "/w:p" && !IsTextElement(body)
  }

  /**
    Well-formed pieces: attributes and tag bodies hold no angle bracket, and a raw run is one whose text
    cannot be decoded.
   */
  predicate WellFormed(k: Token, unescape: string -> Option<string>) {
    match k
    case TextRun(attrs, _) => IsOpening(attrs)
    case RawRun(attrs, raw) => IsOpening(attrs) && '<' !in raw && unescape(raw).None?
    case EmptyRun(attrs) => IsAttributes(attrs)
    case ParaEnd => true
    case Markup(body) => IsOther(body)
    case Filler(chars) => '<' !in chars
  }

  predicate IsTextElement(body: string) {
    |body| >= 3 && body[..3] == "w:t" && (|body| == 3 || body[3] in {' ', '/'})
  }

  function Shown(k: Token, escape: string -> string): string {
    match k
    case TextRun(attrs, text) => "<w:t" + attrs + ">" + (escape(text) + "</w:t>")
    case RawRun(attrs, raw) => "<w:t" + attrs + ">" + (raw + "</w:t>")
    case EmptyRun(attrs) => "<w:t" + attrs + "/>"
    case ParaEnd => "</w:p>"
    case Markup(body) => "<" + body + ">"
    case Filler(chars) => chars
  }

  function ShownAll(doc: seq<Token>, escape: string -> string): string {
    if doc == [] then "" else Shown(doc[0], escape) + ShownAll(doc[1..], escape)
  }

  /** The text a piece stands for. */
  function Meaning(k: Token): string {
    match k
    case TextRun(_, text) => text
    case RawRun(_, raw) => raw
    case ParaEnd => ['\n']
    case _ => ""
  }

  function MeaningAll(doc: seq<Token>): string {
    if doc == [] then "" else Meaning(doc[0]) + MeaningAll(doc[1..])
  }

  // ---- Searching past text that cannot match -------------------------------------------------------

  lemma NoOccurrence(s: string, p: string, i: int, k: nat)
    requires k < |p| && 0 <= i && i + k < |s| && s[i + k] != p[k]
    ensures !OccursAt(s, p, i)
  {
    if i + |p| <= |s| {
      assert s[i..i + |p|][k] == s[i + k];
    }
  }

  /** Text without the pattern's first character only shifts the search. */
  lemma FindPast(f: string, r: string, p: string)
    requires p != "" && p[0] !in f
    ensures Find(f + r, p) == match Find(r, p) case None => None case Some(i) => Some(|f| + i)
  {
    var s := f + r;
    forall j | 0 <= j < |f|
      ensures !OccursAt(s, p, j)
    {
      assert s[j] == f[j] && f[j] in f;
      NoOccurrence(s, p, j, 0);
    }
    forall j | |f| <= j
      ensures OccursAt(s, p, j) <==> OccursAt(r, p, j - |f|)
    {
      if j + |p| <= |s| {
        assert s[j..j + |p|] == r[j - |f|..j - |f| + |p|];
      }
    }
    match Find(r, p)
    case None => FindNone(s, p);
    case Some(i) =>
      assert OccursAt(s, p, |f| + i);
      forall j | 0 <= j < |f| + i
        ensures !OccursAt(s, p, j)
      {
        if j >= |f| {
          assert !OccursAt(r, p, j - |f|);
        }
      }
      FindIs(s, p, |f| + i);
  }

  lemma FindHere(p: string, r: string)
    ensures Find(p + r, p) == Some(0)
  {
    assert (p + r)[0..|p|] == p;
    FindIs(p + r, p, 0);
  }

  lemma FindNowhere(s: string, p: string)
    requires p != "" && p[0] !in s
    ensures Find(s, p).None?
  {
    FindPast(s, "", p);
    assert s + "" == s;
  }

  /** What the scanner finds, given where the two patterns stand. */
  lemma NextIsParaEnd(s: string, p: nat, rest: string)
    requires Find(s, PARA_CLOSE) == Some(p) && s[p + |PARA_CLOSE|..] == rest
    requires Find(s, RUN_OPEN).None? || p < Find(s, RUN_OPEN).value
    ensures Next(s) == ParagraphEnd(rest)
  {
  }

  lemma NextIsRun(s: string, t: nat, after: string)
    requires Find(s, RUN_OPEN) == Some(t) && s[t..] == after && |after| >= 4 && after[0] == '<'
    requires Find(s, PARA_CLOSE).None? || t <= Find(s, PARA_CLOSE).value
    ensures Next(s) == RunAt(after)
  {
  }

  /** Text without `<` in front of the markup does not change what the scanner finds. */
  lemma NextPast(f: string, r: string)
    requires '<' !in f
    ensures Next(f + r) == Next(r)
  {
    FindPast(f, r, RUN_OPEN);
    FindPast(f, r, PARA_CLOSE);
    var t, p := Find(r, RUN_OPEN), Find(r, PARA_CLOSE);
    if p.Some? && (t.None? || p.value < t.value) {
      DropPast(f, r, p.value + |PARA_CLOSE|);
      NextIsParaEnd(f + r, |f| + p.value, r[p.value + |PARA_CLOSE|..]);
    } else if t.Some? {
      RunPast(f, r, t.value);
    }
  }

  lemma RunPast(f: string, r: string, t: nat)
    requires Find(r, RUN_OPEN) == Some(t) && Find(f + r, RUN_OPEN) == Some(|f| + t)
    requires Find(r, PARA_CLOSE).None? || t <= Find(r, PARA_CLOSE).value
    requires Find(f + r, PARA_CLOSE).None? || |f| + t <= Find(f + r, PARA_CLOSE).value
    ensures Next(f + r) == Next(r)
  {
    DropPast(f, r, t);
    OpensWith(r, RUN_OPEN, t);
    NextIsRun(f + r, |f| + t, r[t..]);
    NextIsRun(r, t, r[t..]);
  }

  lemma DropPast(f: string, r: string, i: nat)
    requires i <= |r|
    ensures (f + r)[|f| + i..] == r[i..]
  {
  }

  lemma NextOfPlain(f: string)
    requires '<' !in f
    ensures Next(f) == Nothing
  {
    FindNowhere(f, RUN_OPEN);
    FindNowhere(f, PARA_CLOSE);
  }

  // ---- One piece at a time -------------------------------------------------------------------------

  /** A run prefix with nothing in front of it is what the scanner takes. */
  lemma NextRun(s: string)
    requires |s| >= 4 && s[..4] == RUN_OPEN
    ensures s[0] == '<' && Next(s) == RunAt(s)
  {
    assert s[0] == RUN_OPEN[0];
    assert s[0..4] == RUN_OPEN;
    FindIs(s, RUN_OPEN, 0);
    assert s[1] == RUN_OPEN[1] && PARA_CLOSE[1] == '/';
    NoOccurrence(s, PARA_CLOSE, 0, 1);
    assert s[0..] == s;
  }

  lemma NextParaEnd(r: string)
    ensures Next(PARA_CLOSE + r) == ParagraphEnd(r)
  {
    var s := PARA_CLOSE + r;
    FindHere(PARA_CLOSE, r);
    assert s[1] == '/' && RUN_OPEN[1] == 'w';
    NoOccurrence(s, RUN_OPEN, 0, 1);
    assert s[|PARA_CLOSE|..] == r;
  }

  /** The first `>` behind text that has none. */
  lemma FirstClose(head: string, r: string)
    requires '>' !in head
    ensures IndexOf(head + ['>'] + r, '>') == |head|
  {
    var s := head + ['>'] + r;
    var i := IndexOf(s, '>');
    assert s[|head|] == '>';
    assert forall j :: 0 <= j < |head| ==> s[j] == head[j] && head[j] in head;
    assert forall j :: 0 <= j < i ==> s[j] == s[..i][j] && s[..i][j] in s[..i];
  }

  lemma NextEmptyRun(attrs: string, r: string)
    requires IsAttributes(attrs)
    ensures Next(RUN_OPEN + attrs + "/>" + r) == Skipped(r)
  {
    var s := RUN_OPEN + attrs + "/>" + r;
    var head := RUN_OPEN + attrs + "/";
    assert s == head + ['>'] + r;
    assert '>' !in head;
    FirstClose(head, r);
    assert s[..4] == RUN_OPEN;
    NextRun(s);
    assert s[4] == (attrs + "/>")[0];
    assert s[|head| - 1] == '/' && s[|head| + 1..] == r;
  }

  lemma NextTextRun(attrs: string, raw: string, r: string)
    requires IsOpening(attrs) && '<' !in raw
    ensures Next(RUN_OPEN + attrs + ">" + (raw + RUN_CLOSE) + r) == Run(raw, r)
  {
    var s := RUN_OPEN + attrs + ">" + (raw + RUN_CLOSE) + r;
    var head := RUN_OPEN + attrs;
    var content := raw + (RUN_CLOSE + r);
    assert s == head + ['>'] + content;
    assert '>' !in head;
    FirstClose(head, content);
    assert s[..4] == RUN_OPEN;
    NextRun(s);
    assert s[4] == (attrs + ">")[0];
    assert s[|head| - 1] == head[|head| - 1] != '/';
    assert s[|head| + 1..] == content;
    ContentOf(raw, r);
  }

  lemma ContentOf(raw: string, r: string)
    requires '<' !in raw
    ensures Content(raw + (RUN_CLOSE + r)) == Run(raw, r)
  {
    FindPast(raw, RUN_CLOSE + r, RUN_CLOSE);
    FindHere(RUN_CLOSE, r);
    var content := raw + (RUN_CLOSE + r);
    assert content[..|raw|] == raw && content[|raw| + |RUN_CLOSE|..] == r;
  }

  /** A pattern that starts with `<` and is not at the front of a tag is not inside it either. */
  lemma FindPastTag(body: string, r: string, p: string)
    requires '<' !in body && p != "" && p[0] == '<' && !OccursAt("<" + body + ">" + r, p, 0)
    ensures Find("<" + body + ">" + r, p)
      == match Find(r, p) case None => None case Some(i) => Some(|body| + 2 + i)
  {
    var tail := body + ">";
    var s := "<" + body + ">" + r;
    assert s == "<" + (tail + r);
    FindPast(tail, r, p);
    FindAfterFirst(s, tail + r, p);
  }

  lemma FindAfterFirst(s: string, tail: string, p: string)
    requires s == "<" + tail && p != "" && !OccursAt(s, p, 0)
    ensures Find(s, p) == match Find(tail, p) case None => None case Some(i) => Some(1 + i)
  {
    forall j | 1 <= j
      ensures OccursAt(s, p, j) <==> OccursAt(tail, p, j - 1)
    {
      if j + |p| <= |s| {
        assert s[j..j + |p|] == tail[j - 1..j - 1 + |p|];
      }
    }
    match Find(tail, p)
    case None =>
      forall j | 0 <= j
        ensures !OccursAt(s, p, j)
      {
        if j >= 1 {
          assert !OccursAt(tail, p, j - 1);
        }
      }
      FindNone(s, p);
    case Some(i) =>
      assert OccursAt(s, p, 1 + i);
      forall j | 0 <= j < 1 + i
        ensures !OccursAt(s, p, j)
      {
        if j >= 1 {
          assert !OccursAt(tail, p, j - 1);
        }
      }
      FindIs(s, p, 1 + i);
  }

  /** The characters of a tag, and where its `>` stands. */
  lemma TagChars(body: string, r: string)
    ensures var s := "<" + body + ">" + r;
      && |s| >= |body| + 2 && s[|body| + 1] == '>' && s[1..|body| + 1] == body
      && forall k :: 0 <= k < |body| ==> s[k + 1] == body[k]
  {
  }

  /** Only the tag `</w:p>` matches the paragraph pattern. */
  lemma ParaEndTag(body: string, r: string)
    requires '>' !in body && OccursAt("<" + body + ">" + r, PARA_CLOSE, 0)
    ensures body == "/w:p"
  {
    var s := "<" + body + ">" + r;
    var w := s[0..6];
    TagChars(body, r);
    assert w == PARA_CLOSE && |w| == 6;
    assert w[1] == '/' && w[2] == 'w' && w[3] == ':' && w[4] == 'p' && w[5] == '>';
    assert s[1] == w[1] && s[2] == w[2] && s[3] == w[3] && s[4] == w[4] && s[5] == w[5];
    assert forall k :: 0 <= k < |body| ==> body[k] in body;
    assert |body| + 1 >= 5;
    assert |body| <= 4;
  }

  /** Only a tag whose body starts with `w:t` matches the run pattern. */
  lemma RunTag(body: string, r: string)
    requires OccursAt("<" + body + ">" + r, RUN_OPEN, 0)
    ensures |body| >= 3 && body[..3] == "w:t"
  {
    var s := "<" + body + ">" + r;
    var w := s[0..4];
    TagChars(body, r);
    assert w == RUN_OPEN && |w| == 4;
    assert w[1] == 'w' && w[2] == ':' && w[3] == 't';
    assert s[1] == w[1] && s[2] == w[2] && s[3] == w[3];
    assert |body| >= 3;
    assert body[0] == s[0 + 1] && body[1] == s[1 + 1] && body[2] == s[2 + 1];
  }

  /** Tags such as `<w:tbl>` and `<w:tab/>` share the run prefix and are skipped piecewise. */
  lemma NextOpenTag(body: string, r: string)
    requires '<' !in body && '>' !in body && !IsTextElement(body)
    requires |body| >= 3 && body[..3] == "w:t"
    ensures Next("<" + body + ">" + r) == Skipped(body[3..] + ">" + r)
  {
    var s := "<" + body + ">" + r;
    assert s[..4] == ['<'] + body[..3] == RUN_OPEN;
    NextRun(s);
    assert s[4] == body[3] && body[3] in body;
    assert s[4..] == body[3..] + ">" + r;
  }

  /** Other markup adds nothing to the text, however it is cut up by the scan. */
  lemma ExtractPastTag(body: string, r: string, unescape: string -> Option<string>)
    requires IsOther(body)
    ensures Extracted("<" + body + ">" + r, unescape) == Extracted(r, unescape)
  {
    var s := "<" + body + ">" + r;
    if |body| >= 3 && body[..3] == "w:t" {
      NextOpenTag(body, r);
      ExtractPast(body[3..] + ">", r, unescape);
    } else {
      if OccursAt(s, RUN_OPEN, 0) {
        RunTag(body, r);
      } else if OccursAt(s, PARA_CLOSE, 0) {
        ParaEndTag(body, r);
      } else {
        NextPastTag(body, r);
      }
    }
  }

  lemma ExtractPast(f: string, r: string, unescape: string -> Option<string>)
    requires '<' !in f
    ensures Extracted(f + r, unescape) == Extracted(r, unescape)
  {
    NextPast(f, r);
  }

  lemma NextPastTag(body: string, r: string)
    requires '<' !in body
    requires !OccursAt("<" + body + ">" + r, RUN_OPEN, 0) && !OccursAt("<" + body + ">" + r, PARA_CLOSE, 0)
    ensures Next("<" + body + ">" + r) == Next(r)
  {
    var f := "<" + body + ">";
    assert f + r == "<" + body + ">" + r;
    FindPastTag(body, r, RUN_OPEN);
    FindPastTag(body, r, PARA_CLOSE);
    var t, p := Find(r, RUN_OPEN), Find(r, PARA_CLOSE);
    if p.Some? && (t.None? || p.value < t.value) {
      DropPast(f, r, p.value + |PARA_CLOSE|);
      NextIsParaEnd(f + r, |f| + p.value, r[p.value + |PARA_CLOSE|..]);
    } else if t.Some? {
      RunPast(f, r, t.value);
    }
  }

  /** One piece of a document in front of any markup adds exactly its meaning. */
  lemma ExtractOne(k: Token, r: string, escape: string -> string, unescape: string -> Option<string>)
    requires WellFormed(k, unescape) && EscapesInto(escape, unescape)
    ensures Extracted(Shown(k, escape) + r, unescape) == Meaning(k) + Extracted(r, unescape)
  {
    assert "" + Extracted(r, unescape) == Extracted(r, unescape);
    match k
    case TextRun(attrs, text) =>
      assert EscapesOne(escape, unescape, text);
      NextTextRun(attrs, escape(text), r);
    case RawRun(attrs, raw) => NextTextRun(attrs, raw, r);
    case EmptyRun(attrs) => NextEmptyRun(attrs, r);
    case ParaEnd => NextParaEnd(r);
    case Markup(body) => ExtractPastTag(body, r, unescape);
    case Filler(chars) => ExtractPast(chars, r, unescape);
  }

  /**
    Extraction inverts rendering: for every well-formed document the scanner returns the texts
    of its runs in order, the undecodable ones as they stand, with one newline for each paragraph
    end, and nothing else.
   */
  lemma {:induction false} ExtractInvertsShow(doc: seq<Token>, escape: string -> string, unescape: string -> Option<string>)
    requires EscapesInto(escape, unescape) && forall i :: 0 <= i < |doc| ==> WellFormed(doc[i], unescape)
    ensures Extracted(ShownAll(doc, escape), unescape) == MeaningAll(doc)
  {
    if doc == [] {
      NextOfPlain("");
    } else {
      ExtractOne(doc[0], ShownAll(doc[1..], escape), escape, unescape);
      ExtractInvertsShow(doc[1..], escape, unescape);
    }
  }

  // ---- The cap on the decompressed size ------------------------------------------------------------

  /** An unfinished tag at the end of the input yields no text. */
  lemma OpenTag(q: string, unescape: string -> Option<string>)
    requires '>' !in q && (q != "" ==> '<' !in q[1..])
    ensures Extracted(q, unescape) == ""
  {
    forall i | 0 <= i
      ensures !OccursAt(q, PARA_CLOSE, i)
    {
      if i + 5 < |q| {
        NoOccurrence(q, PARA_CLOSE, i, 5);
      }
    }
    FindNone(q, PARA_CLOSE);
    if OccursAt(q, RUN_OPEN, 0) {
      OpenRun(q, unescape);
    } else if q != "" {
      FindNowhere(q[1..], RUN_OPEN);
      forall i | 1 <= i < |q|
        ensures !OccursAt(q, RUN_OPEN, i)
      {
        assert q[i] == q[1..][i - 1] && q[1..][i - 1] in q[1..];
        NoOccurrence(q, RUN_OPEN, i, 0);
      }
      FindNone(q, RUN_OPEN);
    } else {
      NextOfPlain(q);
    }
  }

  lemma OpenRun(q: string, unescape: string -> Option<string>)
    requires '>' !in q && OccursAt(q, RUN_OPEN, 0) && '<' !in q[1..]
    ensures Extracted(q, unescape) == ""
  {
    assert q[..4] == q[0..4];
    NextRun(q);
    var i := IndexOf(q, '>');
    if |q| == 4 || q[4] !in {'>', ' ', '/'} {
      assert forall k :: 0 <= k < |q[4..]| ==> q[4..][k] == q[1..][k + 3];
      NextOfPlain(q[4..]);
    }
  }

  /** A run cut off before its closing tag is complete yields no text. */
  lemma CutRun(attrs: string, c: string, unescape: string -> Option<string>)
    requires IsOpening(attrs) && Find(c, RUN_CLOSE).None?
    ensures Extracted(RUN_OPEN + attrs + ">" + c, unescape) == ""
  {
    var s := RUN_OPEN + attrs + ">" + c;
    var head := RUN_OPEN + attrs;
    assert s == head + ['>'] + c;
    assert '>' !in head;
    FirstClose(head, c);
    assert s[..4] == RUN_OPEN;
    NextRun(s);
    assert s[4] == (attrs + ">")[0];
    assert s[|head| - 1] == head[|head| - 1] != '/';
    assert s[|head| + 1..] == c;
  }

  lemma NoCloseInCut(raw: string, m: nat)
    requires '<' !in raw && m < |raw + RUN_CLOSE|
    ensures Find((raw + RUN_CLOSE)[..m], RUN_CLOSE).None?
  {
    var c := (raw + RUN_CLOSE)[..m];
    forall i | 0 <= i
      ensures !OccursAt(c, RUN_CLOSE, i)
    {
      if i < |raw| && i < m {
        assert c[i] == raw[i] && raw[i] in raw;
        NoOccurrence(c, RUN_CLOSE, i, 0);
      }
    }
    FindNone(c, RUN_CLOSE);
  }

  lemma CutRunIsSilent(attrs: string, raw: string, n: nat, unescape: string -> Option<string>)
    requires IsOpening(attrs) && '<' !in raw && n < |RUN_OPEN + attrs + ">" + (raw + RUN_CLOSE)|
    ensures Extracted((RUN_OPEN + attrs + ">" + (raw + RUN_CLOSE))[..n], unescape) == ""
  {
    var q := (RUN_OPEN + attrs + ">" + (raw + RUN_CLOSE))[..n];
    var head := RUN_OPEN + attrs;
    if n <= |head| {
      assert q == head[..n];
      OpenTag(q, unescape);
    } else {
      var m := n - |head| - 1;
      assert q == head + ">" + (raw + RUN_CLOSE)[..m];
      NoCloseInCut(raw, m);
      CutRun(attrs, (raw + RUN_CLOSE)[..m], unescape);
    }
  }

  /** A piece cut off anywhere yields no text. */
  lemma CutPieceIsSilent(k: Token, n: nat, escape: string -> string, unescape: string -> Option<string>)
    requires WellFormed(k, unescape) && EscapesInto(escape, unescape) && n < |Shown(k, escape)|
    ensures Extracted(Shown(k, escape)[..n], unescape) == ""
  {
    var q := Shown(k, escape)[..n];
    match k
    case TextRun(attrs, text) =>
      assert EscapesOne(escape, unescape, text);
      CutRunIsSilent(attrs, escape(text), n, unescape);
    case RawRun(attrs, raw) => CutRunIsSilent(attrs, raw, n, unescape);
    case EmptyRun(attrs) => OpenTag(q, unescape);
    case ParaEnd =>
      assert PARA_CLOSE[1..5] == "/w:p";
      OpenTag(q, unescape);
    case Markup(body) =>
      assert Shown(k, escape) == "<" + (body + ">");
      OpenTag(q, unescape);
    case Filler(chars) =>
      NextOfPlain(q);
  }

  /**
    The scanner reads at most a fixed amount of XML. Wherever the document is cut off, what is
    extracted is a prefix of the whole text: nothing is garbled or invented.
   */
  lemma {:induction false} CuttingOnlyShortens(doc: seq<Token>, n: nat, escape: string -> string, unescape: string -> Option<string>)
    requires EscapesInto(escape, unescape) && forall i :: 0 <= i < |doc| ==> WellFormed(doc[i], unescape)
    requires n <= |ShownAll(doc, escape)|
    ensures Extracted(ShownAll(doc, escape)[..n], unescape) <= MeaningAll(doc)
  {
    if doc == [] {
      assert ""[..0] == "";
      NextOfPlain("");
    } else {
      var first, rest := Shown(doc[0], escape), ShownAll(doc[1..], escape);
      if n < |first| {
        assert (first + rest)[..n] == first[..n];
        CutPieceIsSilent(doc[0], n, escape, unescape);
      } else {
        var m := n - |first|;
        assert (first + rest)[..n] == first + rest[..m];
        ExtractOne(doc[0], rest[..m], escape, unescape);
        CuttingOnlyShortens(doc[1..], m, escape, unescape);
      }
    }
  }
}
