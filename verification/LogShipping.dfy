/**
  server/src/log_shipping.rs: the string-level IP redactor that runs on every log line before
  it leaves for a third party.
 */
module LogShipping {
  import opened Arithmetic
  import opened Wrappers
  import opened Text
  import opened Sequences

  /** The prefix the canonical JSON log writes before an address. */
  const IP_FIELD := "\"ip\":\""

  // ---- `u8::from_str` and `u16::from_str_radix(_, 16)` ---------------------------------------

  function DigitValue(c: char): (v: nat)
  {
    if '0' <= c <= '9' then c as int - '0' as int
    else if 'a' <= c <= 'f' then c as int - 'a' as int + 10
    else if 'A' <= c <= 'F' then c as int - 'A' as int + 10
    else 99
  }

  predicate AllDigits(s: string, radix: nat) {
    forall c :: c in s ==> DigitValue(c) < radix
  }

  function Numeral(s: string, radix: nat): nat {
    if s == "" then 0 else Numeral(s[..|s| - 1], radix) * radix + DigitValue(s[|s| - 1])
  }

  /** Unsigned parsing: an optional '+', at least one digit, and no overflow. */
  predicate ParsesUnsigned(s: string, radix: nat, max: nat) {
    var digits := if s != "" && s[0] == '+' then s[1..] else s;
    digits != "" && AllDigits(digits, radix) && Numeral(digits, radix) <= max
  }

  predicate IsOctet(s: string) { ParsesUnsigned(s, 10, 255) }

  predicate IsHexGroup(s: string) { ParsesUnsigned(s, 16, 0xFFFF) }

  // ---- truncate_ip -----------------------------------------------------------------------------

  predicate IsIpv4(ip: string) {
    var dot := LastIndexOf(ip, '.');
    dot >= 0 && AreOctets(Split(ip[..dot], '.')) && IsOctet(ip[dot + 1..])
  }

  predicate AreOctets(p: seq<string>) {
    |p| == 3 && IsOctet(p[0]) && IsOctet(p[1]) && IsOctet(p[2])
  }

  predicate IsIpv6(ip: string) {
    ':' in ip && AreHexGroups(Split(ip, ':'))
  }

  predicate AreHexGroups(p: seq<string>) {
    |p| >= 3 && IsHexGroup(p[0]) && IsHexGroup(p[1]) && IsHexGroup(p[2])
  }

  /** Drops the identifying tail of one address; what cannot be parsed is replaced outright. */
  function TruncateIp(ip: string): string {
    if ip == "" then ""
    else if IsIpv4(ip) then ip[..LastIndexOf(ip, '.')] + ".0"
    else if IsIpv6(ip) then Join(Split(ip, ':')[..3], ':') + "::"
    else "redacted"
  }

  /** What may leave the infrastructure in an address field. */
  ghost predicate Anonymised(v: string) {
    || v == ""
    || v == "redacted"
    || (exists a, b, c :: IsNetwork24(v, a, b, c))
    || (exists g, h, i :: IsPrefix48(v, g, h, i))
  }

  /** `v` is a dotted quad of valid octets with host octet 0. */
  predicate IsNetwork24(v: string, a: string, b: string, c: string) {
    IsOctet(a) && IsOctet(b) && IsOctet(c) && v == Dotted(a, b, c, "0")
  }

  /** `v` is three valid hex groups followed by `::`. */
  predicate IsPrefix48(v: string, g: string, h: string, i: string) {
    IsHexGroup(g) && IsHexGroup(h) && IsHexGroup(i) && v == Colons(g, h, i, ":")
  }

  function Dotted(a: string, b: string, c: string, d: string): string {
    a + ['.'] + (b + ['.'] + c) + ['.'] + d
  }

  function Colons(g: string, h: string, i: string, rest: string): string {
    g + [':'] + (h + [':'] + (i + [':'] + rest))
  }

  /** A parsed number holds digits and '+' only, so none of the separators. */
  lemma NumberChars(s: string, radix: nat, max: nat, c: char)
    requires ParsesUnsigned(s, radix, max) && radix <= 16
    requires c in {'.', ':', '"', 'p', 'r'}
    ensures c !in s
  {
    assert DigitValue(c) == 99;
  }

  /** A dotted quad of octets is recognised, and loses exactly its last octet. */
  lemma TruncateDotted(a: string, b: string, c: string, d: string)
    requires IsOctet(a) && IsOctet(b) && IsOctet(c) && IsOctet(d)
    ensures TruncateIp(Dotted(a, b, c, d)) == Dotted(a, b, c, "0")
  {
    NumberChars(a, 10, 255, '.');
    NumberChars(b, 10, 255, '.');
    NumberChars(c, 10, 255, '.');
    NumberChars(d, 10, 255, '.');
    DottedSplit(a, b, c, d);
    Recognise4(Dotted(a, b, c, d), [a, b, c]);
  }

  lemma DottedSplit(a: string, b: string, c: string, d: string)
    requires '.' !in a && '.' !in b && '.' !in c && '.' !in d
    ensures var ip := Dotted(a, b, c, d); var dot := LastIndexOf(ip, '.');
      && dot >= 0 && Split(ip[..dot], '.') == [a, b, c] && ip[dot + 1..] == d
      && ip[..dot] + ".0" == Dotted(a, b, c, "0")
  {
    var head := a + ['.'] + (b + ['.'] + c);
    LastIndexIs(head, '.', d);
    SplitTwice(a, b, '.', c);
    SplitWhole(c, '.');
    assert (head + ['.'] + d)[..|head|] == head;
  }

  lemma Recognise4(ip: string, p: seq<string>)
    requires var dot := LastIndexOf(ip, '.'); dot >= 0 && Split(ip[..dot], '.') == p && IsOctet(ip[dot + 1..])
    requires |p| == 3 && IsOctet(p[0]) && IsOctet(p[1]) && IsOctet(p[2])
    ensures TruncateIp(ip) == ip[..LastIndexOf(ip, '.')] + ".0"
  {
  }

  /** Whatever follows three hex groups and a colon is dropped: the host half never survives. */
  lemma TruncateColons(g: string, h: string, i: string, rest: string)
    requires IsHexGroup(g) && IsHexGroup(h) && IsHexGroup(i)
    ensures TruncateIp(Colons(g, h, i, rest)) == Colons(g, h, i, ":")
  {
    NumberChars(g, 16, 0xFFFF, ':');
    NumberChars(h, 16, 0xFFFF, ':');
    NumberChars(i, 16, 0xFFFF, ':');
    ColonsSplit(g, h, i, rest);
    Recognise6(Colons(g, h, i, rest), [g, h, i]);
  }

  lemma ColonsSplit(g: string, h: string, i: string, rest: string)
    requires ':' !in g && ':' !in h && ':' !in i
    ensures var ip := Colons(g, h, i, rest); var parts := Split(ip, ':');
      && |g| < |ip| && ip[..|g|] == g && ip[|g|] == ':'
      && |parts| >= 3 && parts[..3] == [g, h, i]
      && Join([g, h, i], ':') + "::" == Colons(g, h, i, ":")
  {
    SplitThrice(g, h, i, ':', rest);
    JoinThree(g, h, i, ':');
    FirstThree(g, h, i, Split(rest, ':'));
  }

  lemma Recognise6(ip: string, p: seq<string>)
    requires |p| == 3 && AreHexGroups(p)
    requires |p[0]| < |ip| && ip[..|p[0]|] == p[0] && ip[|p[0]|] == ':'
    requires |Split(ip, ':')| >= 3 && Split(ip, ':')[..3] == p
    ensures TruncateIp(ip) == Join(p, ':') + "::"
  {
    NumberChars(p[0], 16, 0xFFFF, '.');
    NotDotted(ip, p[0]);
    GroupsOfPrefix(Split(ip, ':'));
    assert IsIpv6(ip);
  }

  lemma GroupsOfPrefix(parts: seq<string>)
    requires |parts| >= 3
    ensures AreHexGroups(parts) <==> AreHexGroups(parts[..3])
  {
  }

  lemma FirstThree(g: string, h: string, i: string, more: seq<string>)
    ensures ([g] + ([h] + ([i] + more)))[..3] == [g, h, i]
  {
  }

  /** An address with a colon before any dot is never taken for a dotted quad. */
  lemma NotDotted(ip: string, g: string)
    requires '.' !in g && |g| < |ip| && ip[..|g|] == g && ip[|g|] == ':'
    ensures !IsIpv4(ip)
  {
    var dot := LastIndexOf(ip, '.');
    if dot >= 0 {
      assert forall k :: 0 <= k < |g| ==> ip[k] == g[k] && g[k] in g;
      assert dot > |g|;
      var head := ip[..dot];
      assert forall k :: 0 <= k <= |g| ==> head[k] != '.';
      var first := head[..IndexOf(head, '.')];
      assert first[|g|] == ':';
      assert Split(head, '.')[0] == first;
      assert ':' in first && !IsOctet(first) by {
        if IsOctet(first) { NumberChars(first, 10, 255, ':'); assert false; }
      }
    }
  }

  /** Text without either separator is not an address of any kind. */
  lemma TruncateOther(v: string)
    requires v != "" && '.' !in v && ':' !in v
    ensures TruncateIp(v) == "redacted"
  {
    assert LastIndexOf(v, '.') == -1;
  }

  /** Every result is anonymised, free of quotes, and left alone by a second truncation. */
  lemma TruncateSafe(ip: string)
    ensures IsSafe(TruncateIp(ip))
  {
    if ip == "" {
    } else if IsIpv4(ip) {
      Truncate4(ip);
    } else if IsIpv6(ip) {
      Truncate6(ip);
    } else {
      RedactedIsSafe(TruncateIp(ip));
    }
  }

  ghost predicate IsSafe(v: string) {
    Anonymised(v) && '"' !in v && TruncateIp(v) == v
  }

  lemma RedactedIsSafe(v: string)
    requires v == "redacted"
    ensures IsSafe(v)
  {
    RedactedChars(v);
    TruncateOther(v);
  }

  lemma RedactedChars(v: string)
    requires v == "redacted"
    ensures '"' !in v && '.' !in v && ':' !in v
  {
  }

  lemma Truncate4(ip: string)
    requires ip != "" && IsIpv4(ip)
    ensures IsSafe(TruncateIp(ip))
  {
    var head := ip[..LastIndexOf(ip, '.')];
    var p := Split(head, '.');
    JoinSplit(head, '.');
    assert p == [p[0], p[1], p[2]];
    JoinThree(p[0], p[1], p[2], '.');
    Network24Fixed(p[0], p[1], p[2]);
    assert head + ".0" == head + ['.'] + "0";
    assert IsNetwork24(TruncateIp(ip), p[0], p[1], p[2]);
  }

  lemma Truncate6(ip: string)
    requires ip != "" && !IsIpv4(ip) && IsIpv6(ip)
    ensures IsSafe(TruncateIp(ip))
  {
    var p := Split(ip, ':')[..3];
    GroupsOfPrefix(Split(ip, ':'));
    ColonsShape(p);
    Prefix48Fixed(p[0], p[1], p[2]);
    assert IsPrefix48(TruncateIp(ip), p[0], p[1], p[2]);
  }

  lemma ColonsShape(p: seq<string>)
    requires |p| == 3
    ensures Join(p, ':') + "::" == Colons(p[0], p[1], p[2], ":")
  {
    assert p == [p[0], p[1], p[2]];
    JoinThree(p[0], p[1], p[2], ':');
  }

  lemma Network24Fixed(a: string, b: string, c: string)
    requires IsOctet(a) && IsOctet(b) && IsOctet(c)
    ensures var v := Dotted(a, b, c, "0"); '"' !in v && TruncateIp(v) == v
  {
    NoQuote4(a, b, c);
    ZeroIsOctet();
    TruncateDotted(a, b, c, "0");
  }

  lemma NoQuote4(a: string, b: string, c: string)
    requires IsOctet(a) && IsOctet(b) && IsOctet(c)
    ensures '"' !in Dotted(a, b, c, "0")
  {
    NumberChars(a, 10, 255, '"');
    NumberChars(b, 10, 255, '"');
    NumberChars(c, 10, 255, '"');
  }

  lemma ZeroIsOctet()
    ensures IsOctet("0")
  {
    assert "0"[..0] == "";
  }

  lemma Prefix48Fixed(g: string, h: string, i: string)
    requires IsHexGroup(g) && IsHexGroup(h) && IsHexGroup(i)
    ensures var v := Colons(g, h, i, ":"); '"' !in v && TruncateIp(v) == v
  {
    NoQuote6(g, h, i);
    TruncateColons(g, h, i, ":");
  }

  lemma NoQuote6(g: string, h: string, i: string)
    requires IsHexGroup(g) && IsHexGroup(h) && IsHexGroup(i)
    ensures '"' !in Colons(g, h, i, ":")
  {
    NumberChars(g, 16, 0xFFFF, '"');
    NumberChars(h, 16, 0xFFFF, '"');
    NumberChars(i, 16, 0xFFFF, '"');
  }

  /** No anonymised value is the text `ip`, so no value can complete a field prefix. */
  lemma AnonymisedIsNotIp(v: string)
    requires Anonymised(v)
    ensures v != "ip"
  {
  }

  // ---- Numbers as they are spelt -----------------------------------------------------------------

  /** The digits of the bases up to sixteen, in either case. */
  const LOWER := "0123456789abcdef"

  const UPPER := "0123456789ABCDEF"

  predicate IsDigit(c: char, d: nat) {
    d < 16 && (c == LOWER[d] || c == UPPER[d])
  }

  /** `s` spells `n` to a base, with or without leading zeros. */
  predicate Spells(s: string, n: nat, base: nat)
    requires base > 0
    decreases |s|
  {
    s != "" && var last, c := |s| - 1, s[|s| - 1];
      if last == 0 then n < base && IsDigit(c, n)
      else IsDigit(c, n % base) && Spells(s[..last], n / base, base)
  }

  /** The text without the sign the parsers allow. */
  function Unsigned(s: string): string {
    if s != "" && s[0] == '+' then s[1..] else s
  }

  lemma DigitIs(c: char, d: nat)
    requires d < 16
    ensures IsDigit(c, d) <==> DigitValue(c) == d
  {
    if c < '0' || c > 'f' {
    } else {
      var u := c as int;
      assert 48 <= u <= 102;
    }
  }

  lemma LastDigit(n: nat, base: nat, q: nat, d: nat)
    requires 0 < base && d < base
    ensures n == q * base + d <==> q == n / base && d == n % base
  {
    if n == q * base + d {
      DivIs(n, base, q, d);
    }
    assert n == base * (n / base) + n % base;
  }

  lemma AllDigitsLast(s: string, base: nat)
    requires s != ""
    ensures AllDigits(s, base) <==> AllDigits(s[..|s| - 1], base) && DigitValue(s[|s| - 1]) < base
  {
    assert s == s[..|s| - 1] + [s[|s| - 1]];
  }

  /** What the parsers read is what the text spells. */
  lemma {:induction false} SpellsExactlyWhen(s: string, n: nat, base: nat)
    requires 1 < base <= 16
    ensures Spells(s, n, base) <==> s != "" && AllDigits(s, base) && Numeral(s, base) == n
    decreases |s|
  {
    if s == "" {
    } else {
      var first, c := s[..|s| - 1], s[|s| - 1];
      AllDigitsLast(s, base);
      if DigitValue(c) < base {
        LastDigit(n, base, Numeral(first, base), DigitValue(c));
      }
      DigitIs(c, n % base);
      if first == "" {
        OneDigit(s, first, c, n, base);
      } else {
        SpellsExactlyWhen(first, n / base, base);
      }
    }
  }

  lemma OneDigit(s: string, first: string, c: char, n: nat, base: nat)
    requires 1 < base <= 16 && first == "" && s == [c]
    ensures Spells(s, n, base) <==> AllDigits(s, base) && Numeral(s, base) == n
  {
    assert s[..0] == first && Numeral(first, base) == 0;
    AllDigitsLast(s, base);
    if n < base {
      DigitIs(c, n);
    }
  }

  /** An octet is the spelling, with an optional sign, of a number up to 255. */
  lemma OctetExactlyWhen(s: string)
    ensures IsOctet(s) <==> exists n: nat :: n <= 255 && Spells(Unsigned(s), n, 10)
  {
    var digits := Unsigned(s);
    SpellsExactlyWhen(digits, Numeral(digits, 10), 10);
    if n: nat :| n <= 255 && Spells(digits, n, 10) {
      SpellsExactlyWhen(digits, n, 10);
    }
  }

  /** A hex group is the spelling, in either case and with an optional sign, of a number up to 65535. */
  lemma HexGroupExactlyWhen(s: string)
    ensures IsHexGroup(s) <==> exists n: nat :: n <= 65535 && Spells(Unsigned(s), n, 16)
  {
    var digits := Unsigned(s);
    SpellsExactlyWhen(digits, Numeral(digits, 16), 16);
    if n: nat :| n <= 65535 && Spells(digits, n, 16) {
      SpellsExactlyWhen(digits, n, 16);
    }
  }

  /** A spelling holds digits only. */
  lemma SpeltChars(s: string, n: nat, base: nat)
    requires 1 < base <= 16 && Spells(s, n, base)
    ensures '.' !in s && ':' !in s && '"' !in s && Unsigned(s) == s
  {
    SpellsExactlyWhen(s, n, base);
    assert DigitValue('.') == 99 && DigitValue(':') == 99 && DigitValue('"') == 99 && DigitValue('+') == 99;
    assert s[0] in s;
  }

  lemma SpeltOctet(s: string, n: nat)
    requires Spells(s, n, 10)
    ensures '.' !in s && ':' !in s && (IsOctet(s) <==> n <= 255)
  {
    SpeltChars(s, n, 10);
    SpellsExactlyWhen(s, n, 10);
  }

  lemma SpeltGroup(s: string, n: nat)
    requires Spells(s, n, 16)
    ensures '.' !in s && ':' !in s && (IsHexGroup(s) <==> n <= 65535)
  {
    SpeltChars(s, n, 16);
    SpellsExactlyWhen(s, n, 16);
  }

  lemma QuadIsIpv4(a: string, b: string, c: string, d: string)
    requires '.' !in a && '.' !in b && '.' !in c && '.' !in d
    requires ':' !in a && ':' !in b && ':' !in c && ':' !in d
    ensures var ip := Dotted(a, b, c, d);
      ':' !in ip && ip != "" && (IsIpv4(ip) <==> IsOctet(a) && IsOctet(b) && IsOctet(c) && IsOctet(d))
  {
    DottedSplit(a, b, c, d);
  }

  lemma QuadTruncated(a: string, b: string, c: string, d: string, valid: bool)
    requires '.' !in a && '.' !in b && '.' !in c && '.' !in d
    requires ':' !in a && ':' !in b && ':' !in c && ':' !in d
    requires valid <==> IsOctet(a) && IsOctet(b) && IsOctet(c) && IsOctet(d)
    ensures TruncateIp(Dotted(a, b, c, d)) == if valid then Dotted(a, b, c, "0") else "redacted"
  {
    if valid {
      TruncateDotted(a, b, c, d);
    } else {
      QuadIsIpv4(a, b, c, d);
    }
  }

  /** Each text spells its number. */
  predicate AllSpell(parts: seq<string>, numbers: seq<nat>, base: nat)
    requires base > 0 && |parts| == |numbers|
  {
    parts == [] || (Spells(parts[0], numbers[0], base) && AllSpell(parts[1..], numbers[1..], base))
  }

  lemma {:induction false} SpeltAt(parts: seq<string>, numbers: seq<nat>, base: nat, k: nat)
    requires base > 0 && |parts| == |numbers| && AllSpell(parts, numbers, base) && k < |parts|
    ensures Spells(parts[k], numbers[k], base)
    decreases k
  {
    if k == 0 {
    } else {
      SpeltAt(parts[1..], numbers[1..], base, k - 1);
    }
  }

  lemma SpeltOctets(parts: seq<string>, numbers: seq<nat>)
    requires |parts| == |numbers| && AllSpell(parts, numbers, 10)
    ensures forall k :: 0 <= k < |parts| ==>
      '.' !in parts[k] && ':' !in parts[k] && (IsOctet(parts[k]) <==> numbers[k] <= 255)
  {
    forall k | 0 <= k < |parts|
      ensures '.' !in parts[k] && ':' !in parts[k] && (IsOctet(parts[k]) <==> numbers[k] <= 255)
    {
      SpeltAt(parts, numbers, 10, k);
      SpeltOctet(parts[k], numbers[k]);
    }
  }

  lemma SpeltGroups(parts: seq<string>, numbers: seq<nat>)
    requires |parts| == |numbers| && AllSpell(parts, numbers, 16)
    ensures forall k :: 0 <= k < |parts| ==>
      '.' !in parts[k] && ':' !in parts[k] && (IsHexGroup(parts[k]) <==> numbers[k] <= 65535)
  {
    forall k | 0 <= k < |parts|
      ensures '.' !in parts[k] && ':' !in parts[k] && (IsHexGroup(parts[k]) <==> numbers[k] <= 65535)
    {
      SpeltAt(parts, numbers, 16, k);
      SpeltGroup(parts[k], numbers[k]);
    }
  }

  /** Four numbers with dots between them: the last becomes 0 if all are octets, and else nothing is kept. */
  lemma TruncateQuad(p: seq<string>, n: seq<nat>)
    requires |p| == |n| == 4 && AllSpell(p, n, 10)
    ensures TruncateIp(Dotted(p[0], p[1], p[2], p[3])) ==
      if n[0] <= 255 && n[1] <= 255 && n[2] <= 255 && n[3] <= 255 then Dotted(p[0], p[1], p[2], "0") else "redacted"
  {
    SpeltOctets(p, n);
    QuadTruncated(p[0], p[1], p[2], p[3], n[0] <= 255 && n[1] <= 255 && n[2] <= 255 && n[3] <= 255);
  }

  lemma GroupsAreIpv6(g: string, h: string, i: string, rest: string)
    requires ':' !in g && ':' !in h && ':' !in i && '.' !in g
    ensures var ip := Colons(g, h, i, rest);
      ip != "" && !IsIpv4(ip) && (IsIpv6(ip) <==> IsHexGroup(g) && IsHexGroup(h) && IsHexGroup(i))
  {
    var ip := Colons(g, h, i, rest);
    ColonsSplit(g, h, i, rest);
    NotDotted(ip, g);
    GroupsOfPrefix(Split(ip, ':'));
    assert ip[|g|] in ip;
  }

  lemma GroupsTruncated(g: string, h: string, i: string, rest: string, valid: bool)
    requires ':' !in g && ':' !in h && ':' !in i && '.' !in g
    requires valid <==> IsHexGroup(g) && IsHexGroup(h) && IsHexGroup(i)
    ensures TruncateIp(Colons(g, h, i, rest)) == if valid then Colons(g, h, i, ":") else "redacted"
  {
    if valid {
      TruncateColons(g, h, i, rest);
    } else {
      GroupsAreIpv6(g, h, i, rest);
    }
  }

  /** Three hex numbers with colons behind them are all that is kept, if each has at most 16 bits. */
  lemma TruncateGroups(p: seq<string>, n: seq<nat>, rest: string)
    requires |p| == |n| == 3 && AllSpell(p, n, 16)
    ensures TruncateIp(Colons(p[0], p[1], p[2], rest)) ==
      if n[0] <= 65535 && n[1] <= 65535 && n[2] <= 65535 then Colons(p[0], p[1], p[2], ":") else "redacted"
  {
    SpeltGroups(p, n);
    GroupsTruncated(p[0], p[1], p[2], rest, n[0] <= 65535 && n[1] <= 65535 && n[2] <= 65535);
  }

  /** The shortest spelling of a number, with either set of digits. */
  function Spelt(n: nat, base: nat, digits: string): string
    requires 1 < base <= 16 <= |digits|
    decreases n
  {
    if n < base then [digits[n]]
    else
      DivSmaller(n, base);
      Spelt(n / base, base, digits) + [digits[n % base]]
  }

  lemma DivSmaller(n: nat, base: nat)
    requires 1 < base <= n
    ensures 0 < n / base < n
  {
    var q := n / base;
    assert n == base * q + n % base;
    DivMono(base, n, base);
    DivIs(base, base, 1, 0);
    MulMono(q, 2, base);
    assert q * base == base * q;
  }

  /** Every number has a spelling, in lower and in upper case. */
  lemma {:induction false} SpeltSpells(n: nat, base: nat, digits: string)
    requires 1 < base <= 16 && (digits == LOWER || digits == UPPER)
    ensures Spelt(n, base, digits) != "" && Spells(Spelt(n, base, digits), n, base)
    decreases n
  {
    if n < base {
      assert |Spelt(n, base, digits)| == 1;
    } else {
      DivSmaller(n, base);
      SpeltSpells(n / base, base, digits);
      var first, s := Spelt(n / base, base, digits), Spelt(n, base, digits);
      assert s[..|s| - 1] == first && s[|s| - 1] == digits[n % base];
    }
  }

  // ---- redact_ip -------------------------------------------------------------------------------

  /**
    What `redact_ip` returns, as a recursion over the remaining line; `t` rewrites one address.
   */
  function Redacted(line: string, t: string -> string): string
    decreases |line|
  {
    match Find(line, IP_FIELD)
    case None => line
    case Some(at) =>
      var cut := at + |IP_FIELD|;
      var tail := line[cut..];
      var end := IndexOf(tail, '"');
      if end == |tail| then line
      else line[..cut] + t(tail[..end]) + Redacted(tail[end..], t)
  }

  method RedactIp(line: string) returns (out: string)
    ensures out == Redacted(line, TruncateIp)
  {
    out := RedactWith(line, TruncateIp);
  }

  method RedactWith(line: string, t: string -> string) returns (out: string)
    ensures out == Redacted(line, t)
  {
    out := "";
    var rest := line;
    while true
      invariant out + Redacted(rest, t) == Redacted(line, t)
      decreases |rest|
    {
      var at := Find(rest, IP_FIELD);
      if at.None? {
        break;
      }
      var cut := at.value + |IP_FIELD|;
      var before, tail := rest[..cut], rest[cut..];
      var end := IndexOf(tail, '"');
      if end == |tail| {
        break;
      }
      Reassociate(out, before + t(tail[..end]), Redacted(tail[end..], t));
      out := out + (before + t(tail[..end]));
      rest := tail[end..];
    }
    out := out + rest;
  }

  /** The first quote of a line opens a field: its value is truncated and nothing before it changes. */
  lemma FieldIsTruncated(before: string, field: string, value: string, after: string, line: string)
    requires field == "\"ip\":\"" && '"' !in before && '"' !in value && after != "" && after[0] == '"'
    requires line == before + field + value + after
    ensures Redacted(line, TruncateIp) == before + field + TruncateIp(value) + Redacted(after, TruncateIp)
  {
    var cut := |before| + |field|;
    FieldStands(before, field, value + after);
    assert before + field + (value + after) == line;
    var tail := line[cut..];
    assert tail == value + after && line[..cut] == before + field;
    FirstQuote(value, after);
  }

  lemma FieldStands(before: string, field: string, more: string)
    requires field == "\"ip\":\"" && '"' !in before
    ensures field == IP_FIELD && Find(before + field + more, IP_FIELD) == Some(|before|)
  {
    var line := before + field + more;
    assert line[|before|..|before| + |field|] == field;
    forall j | 0 <= j < |before| ensures !OccursAt(line, field, j) {
      assert line[j] == before[j] && before[j] in before;
      assert j + |field| <= |line| ==> line[j..j + |field|][0] == line[j];
    }
    FindIs(line, field, |before|);
  }

  /** A line without the field is shipped as it is. */
  lemma NoFieldNoChange(line: string, field: string)
    requires field == "\"ip\":\"" && Find(line, field).None?
    ensures Redacted(line, TruncateIp) == line
  {
  }

  // ---- The structure of a log line ---------------------------------------------------------------

  /**
    A line as the redactor sees it: text up to and including a field prefix, the address after
    it (closed by a quote, which opens `next`), and so on; `Rest` holds no terminated address.
   */
  datatype Line = Rest(text: string) | Field(text: string, value: string, next: Line)

  function Parse(line: string): Line
    decreases |line|
  {
    match Find(line, IP_FIELD)
    case None => Rest(line)
    case Some(at) =>
      var cut := at + |IP_FIELD|;
      var tail := line[cut..];
      var end := IndexOf(tail, '"');
      if end == |tail| then Rest(line) else Field(line[..cut], tail[..end], Parse(tail[end..]))
  }

  function Show(l: Line): string {
    match l
    case Rest(text) => text
    case Field(text, value, next) => text + value + Show(next)
  }

  function MapValues(l: Line, t: string -> string): Line {
    match l
    case Rest(_) => l
    case Field(text, value, next) => Field(text, t(value), MapValues(next, t))
  }

  /** What a rewrite of addresses must guarantee for the line around it to stay intact. */
  ghost predicate QuoteFree(t: string -> string) {
    forall v :: '"' !in t(v)
  }

  /** One step of the parse: where the first terminated address stands and what follows it. */
  lemma ParseStep(line: string, at: nat) returns (cut: nat, from: nat)
    requires Find(line, IP_FIELD) == Some(at)
    ensures cut == at + |IP_FIELD| <= from <= |line| && '"' !in line[cut..from]
    ensures from == |line| ==> Parse(line) == Rest(line)
    ensures from < |line| ==> line[from] == '"' && Parse(line) == Field(line[..cut], line[cut..from], Parse(line[from..]))
  {
    cut := at + |IP_FIELD|;
    var tail := line[cut..];
    var end := IndexOf(tail, '"');
    from := cut + end;
    assert tail[..end] == line[cut..from] && tail[end..] == line[from..];
  }

  /** Parsing a line into text and addresses loses nothing. */
  lemma {:induction false} ShowParse(line: string)
    ensures Show(Parse(line)) == line
    decreases |line|
  {
    if Find(line, IP_FIELD).Some? {
      var cut, from := ParseStep(line, Find(line, IP_FIELD).value);
      if from < |line| {
        ShowParse(line[from..]);
        Glue(line, cut, from);
      }
    }
  }

  lemma Glue(line: string, cut: nat, from: nat)
    requires cut <= from <= |line|
    ensures line[..cut] + line[cut..from] + line[from..] == line
  {
  }

  /** The redactor keeps the first character of a line. */
  lemma RedactedHead(line: string, t: string -> string)
    requires line != ""
    ensures Redacted(line, t) != "" && Redacted(line, t)[0] == line[0]
  {
  }

  /**
    The fields found in `before + value + after` when `before` ends with the first prefix of the
    line and `after` opens with the quote that closes the value.
   */
  lemma ParseField(before: string, value: string, after: string)
    requires Find(before, IP_FIELD).Some? && Find(before, IP_FIELD).value + |IP_FIELD| == |before|
    requires '"' !in value && after != "" && after[0] == '"'
    ensures Parse(before + value + after) == Field(before, value, Parse(after))
  {
    var line := before + value + after;
    var at := |before| - |IP_FIELD|;
    FirstPrefix(before, value + after);
    assert before + (value + after) == line;
    FirstQuote(value, after);
    assert line[|before|..] == value + after;
  }

  lemma FirstPrefix(before: string, more: string)
    requires Find(before, IP_FIELD).Some? && Find(before, IP_FIELD).value + |IP_FIELD| == |before|
    ensures Find(before + more, IP_FIELD) == Find(before, IP_FIELD)
  {
    var line := before + more;
    var at := |before| - |IP_FIELD|;
    forall j | 0 <= j < at
      ensures !OccursAt(line, IP_FIELD, j)
    {
      assert line[j..j + |IP_FIELD|] == before[j..j + |IP_FIELD|];
      assert !OccursAt(before, IP_FIELD, j);
    }
    assert line[at..at + |IP_FIELD|] == before[at..at + |IP_FIELD|];
    FindIs(line, IP_FIELD, at);
  }

  lemma FirstQuote(value: string, after: string)
    requires '"' !in value && after != "" && after[0] == '"'
    ensures IndexOf(value + after, '"') == |value|
  {
    var s := value + after;
    var i := IndexOf(s, '"');
    assert s[|value|] == '"';
    assert forall j :: 0 <= j < |value| ==> s[j] == value[j] && value[j] in value;
    assert forall j :: 0 <= j < i ==> s[j] == s[..i][j] && s[..i][j] in s[..i];
  }

  /**
    Framing: the redacted line parses into the very same text, with every address rewritten and
    nothing else changed; in particular no splice creates or destroys a field.
   */
  lemma {:induction false} ParseRedacted(line: string, t: string -> string)
    requires QuoteFree(t)
    ensures Parse(Redacted(line, t)) == MapValues(Parse(line), t)
    decreases |line|
  {
    match Find(line, IP_FIELD)
    case None =>
    case Some(at) =>
      var cut := at + |IP_FIELD|;
      var tail := line[cut..];
      var end := IndexOf(tail, '"');
      if end < |tail| {
        ParseRedacted(tail[end..], t);
        RedactedHead(tail[end..], t);
        PrefixOfBefore(line, at);
        ParseField(line[..cut], t(tail[..end]), Redacted(tail[end..], t));
      }
  }

  lemma PrefixOfBefore(line: string, at: nat)
    requires Find(line, IP_FIELD) == Some(at)
    ensures at + |IP_FIELD| <= |line| && Find(line[..at + |IP_FIELD|], IP_FIELD) == Some(at)
  {
    var before := line[..at + |IP_FIELD|];
    forall j | 0 <= j < at
      ensures !OccursAt(before, IP_FIELD, j)
    {
      assert line[j..j + |IP_FIELD|] == before[j..j + |IP_FIELD|];
      assert !OccursAt(line, IP_FIELD, j);
    }
    assert line[at..at + |IP_FIELD|] == before[at..at + |IP_FIELD|];
    FindIs(before, IP_FIELD, at);
  }

  // ---- What leaves the infrastructure ------------------------------------------------------------

  /** `s` holds an address field at `k` whose value ends at the quote at `e`, wherever `k` is. */
  ghost predicate IsField(s: string, k: int, e: int) {
    && OccursAt(s, IP_FIELD, k) && k + |IP_FIELD| <= e < |s|
    && s[e] == '"' && '"' !in s[k + |IP_FIELD|..e]
  }

  /** `v` is one of the addresses of the line. */
  predicate HasValue(l: Line, v: string) {
    l.Field? && (v == l.value || HasValue(l.next, v))
  }

  /**
    Left-to-right parsing finds every terminated field of a line, overlapping ones included:
    only a value that reads `ip` could hide one.
   */
  lemma {:induction false} EveryFieldIsParsed(s: string)
    requires !HasValue(Parse(s), "ip")
    ensures forall k, e :: IsField(s, k, e) ==> HasValue(Parse(s), s[k + |IP_FIELD|..e])
    decreases |s|
  {
    var found := Find(s, IP_FIELD);
    if found.Some? {
      var cut, from := ParseStep(s, found.value);
      if from < |s| {
        EveryFieldIsParsed(s[from..]);
      }
      forall k, e | IsField(s, k, e)
        ensures HasValue(Parse(s), s[k + |IP_FIELD|..e])
      {
        FirstOfField(s, found.value, k, e, cut, from);
        if k != found.value {
          LaterField(s, k, e, from, s[from..]);
        }
      }
    }
  }

  /** A field is the first one of the line, or starts at its closing quote or later. */
  lemma FirstOfField(s: string, at: nat, k: int, e: int, cut: nat, from: nat)
    requires IsField(s, k, e) && Find(s, IP_FIELD) == Some(at)
    requires cut == at + |IP_FIELD| <= from <= |s| && '"' !in s[cut..from]
    requires from < |s| ==> s[from] == '"'
    ensures at <= k && from < |s|
    ensures if k == at then e == from else k >= from || s[cut..from] == "ip"
  {
    assert forall j :: cut <= j < from ==> s[j] == s[cut..from][j - cut] && s[cut..from][j - cut] in s[cut..from];
    if k == at {
      assert forall j :: cut <= j < e ==> s[j] == s[cut..e][j - cut] && s[cut..e][j - cut] in s[cut..e];
    } else {
      PrefixChars(s, at);
      PrefixChars(s, k);
      if k == at + 5 {
        assert s[cut..from] == "ip";
      }
    }
  }

  lemma PrefixChars(s: string, k: int)
    requires OccursAt(s, IP_FIELD, k)
    ensures s[k] == '"' && s[k + 1] == 'i' && s[k + 2] == 'p'
    ensures s[k + 3] == '"' && s[k + 4] == ':' && s[k + 5] == '"'
  {
    var w := s[k..k + |IP_FIELD|];
    assert w == IP_FIELD && |w| == 6;
    assert w[0] == s[k] && w[1] == s[k + 1] && w[2] == s[k + 2];
    assert w[3] == s[k + 3] && w[4] == s[k + 4] && w[5] == s[k + 5];
  }

  lemma LaterField(s: string, k: int, e: int, from: nat, rest: string)
    requires IsField(s, k, e) && from <= k && rest == s[from..]
    ensures IsField(rest, k - from, e - from)
    ensures rest[k - from + |IP_FIELD|..e - from] == s[k + |IP_FIELD|..e]
  {
    assert rest[k - from..k - from + |IP_FIELD|] == s[k..k + |IP_FIELD|];
    assert rest[k - from + |IP_FIELD|..e - from] == s[k + |IP_FIELD|..e];
  }

  lemma {:induction false} MappedAreAnonymised(l: Line, v: string)
    requires HasValue(MapValues(l, TruncateIp), v)
    ensures Anonymised(v)
  {
    if v == TruncateIp(l.value) {
      TruncateSafe(l.value);
    } else {
      MappedAreAnonymised(l.next, v);
    }
  }

  lemma NoValueReadsIp(l: Line)
    ensures !HasValue(MapValues(l, TruncateIp), "ip")
  {
    if HasValue(MapValues(l, TruncateIp), "ip") {
      MappedAreAnonymised(l, "ip");
      AnonymisedIsNotIp("ip");
    }
  }

  lemma TruncateIsQuoteFree()
    ensures QuoteFree(TruncateIp)
  {
    forall v
      ensures '"' !in TruncateIp(v)
    {
      TruncateSafe(v);
    }
  }

  /**
    Completeness: in what the redactor returns, the value of every terminated address field,
    at any position, is anonymised.
   */
  lemma NothingIdentifyingLeaves(line: string, k: int, e: int)
    requires IsField(Redacted(line, TruncateIp), k, e)
    ensures Anonymised(Redacted(line, TruncateIp)[k + |IP_FIELD|..e])
  {
    var out := Redacted(line, TruncateIp);
    TruncateIsQuoteFree();
    ParseRedacted(line, TruncateIp);
    NoValueReadsIp(Parse(line));
    EveryFieldIsParsed(out);
    MappedAreAnonymised(Parse(line), out[k + |IP_FIELD|..e]);
  }

  /** Redacting twice changes nothing more. */
  lemma RedactIsIdempotent(line: string)
    ensures Redacted(Redacted(line, TruncateIp), TruncateIp) == Redacted(line, TruncateIp)
  {
    TruncateIsQuoteFree();
    var once := Redacted(line, TruncateIp);
    ParseRedacted(line, TruncateIp);
    ParseRedacted(once, TruncateIp);
    MapTwice(Parse(line));
    ShowParse(once);
    ShowParse(Redacted(once, TruncateIp));
  }

  lemma {:induction false} MapTwice(l: Line)
    ensures MapValues(MapValues(l, TruncateIp), TruncateIp) == MapValues(l, TruncateIp)
  {
    if l.Field? {
      TruncateSafe(l.value);
      MapTwice(l.next);
    }
  }

  /**
    The shipped line reveals exactly the surrounding text and the truncated addresses: two lines
    become the same line if and only if they agree on those.
   */
  lemma RevealsOnlyTruncated(a: string, b: string)
    ensures Redacted(a, TruncateIp) == Redacted(b, TruncateIp)
      <==> MapValues(Parse(a), TruncateIp) == MapValues(Parse(b), TruncateIp)
  {
    TruncateIsQuoteFree();
    ParseRedacted(a, TruncateIp);
    ParseRedacted(b, TruncateIp);
    ShowParse(Redacted(a, TruncateIp));
    ShowParse(Redacted(b, TruncateIp));
  }
}
