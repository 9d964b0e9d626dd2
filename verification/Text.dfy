/** String searching and splitting, as Rust's `str` methods define them. */
module Text {
  import opened Wrappers

  /** The pattern `p` stands in `s` at position `i`. */
  ghost predicate OccursAt(s: string, p: string, i: int) {
    0 <= i && i + |p| <= |s| && s[i..i + |p|] == p
  }

  /** `str::find`: the leftmost occurrence. */
  function Find(s: string, p: string): (r: Option<nat>)
    ensures r.Some? ==> OccursAt(s, p, r.value) && r.value + |p| <= |s|
    ensures r.Some? ==> forall j :: j < r.value ==> !OccursAt(s, p, j)
    ensures r.None? ==> forall j :: !OccursAt(s, p, j)
  {
    FindFrom(s, p, 0)
  }

  function FindFrom(s: string, p: string, i: nat): (r: Option<nat>)
    requires i <= |s|
    ensures r.Some? ==> i <= r.value && OccursAt(s, p, r.value)
    ensures r.Some? ==> forall j :: i <= j < r.value ==> !OccursAt(s, p, j)
    ensures r.None? ==> forall j :: i <= j ==> !OccursAt(s, p, j)
    decreases |s| - i
  {
    if i + |p| <= |s| && s[i..i + |p|] == p then Some(i)
    else if i == |s| then None
    else FindFrom(s, p, i + 1)
  }

  /** The position of the leftmost occurrence is the only value `Find` can return. */
  lemma FindIs(s: string, p: string, i: nat)
    requires OccursAt(s, p, i)
    requires forall j :: 0 <= j < i ==> !OccursAt(s, p, j)
    ensures Find(s, p) == Some(i)
  {
  }

  lemma FindNone(s: string, p: string)
    requires forall j :: 0 <= j ==> !OccursAt(s, p, j)
    ensures Find(s, p).None?
  {
  }

  /** Position of the first `c`, or the length when there is none. */
  function IndexOf(s: string, c: char): (i: nat)
    ensures i <= |s|
    ensures c !in s[..i]
    ensures i < |s| ==> s[i] == c
  {
    if s == [] || s[0] == c then 0 else 1 + IndexOf(s[1..], c)
  }

  /** Position of the last `c`, or -1 when there is none (`str::rsplit_once`). */
  function LastIndexOf(s: string, c: char): (i: int)
    ensures -1 <= i < |s|
    ensures i >= 0 ==> s[i] == c
    ensures c !in s[i + 1..]
  {
    if s == [] then -1
    else if s[|s| - 1] == c then |s| - 1
    else LastIndexOf(s[..|s| - 1], c)
  }

  /** A separator with none behind it is the last one. */
  lemma {:induction false} LastIndexIs(head: string, c: char, last: string)
    requires c !in last
    ensures LastIndexOf(head + [c] + last, c) == |head|
  {
    var s := head + [c] + last;
    if last == "" {
    } else {
      var n := |last| - 1;
      assert last[n] in last;
      assert s[..|s| - 1] == head + [c] + last[..n];
      LastIndexIs(head, c, last[..n]);
    }
  }

  /** `str::split(c)`: one piece more than there are separators. */
  function Split(s: string, c: char): (r: seq<string>)
    ensures |r| >= 1
  {
    var i := IndexOf(s, c);
    if i == |s| then [s] else [s[..i]] + Split(s[i + 1..], c)
  }

  /** `join` with a one-character separator. */
  function Join(parts: seq<string>, c: char): string
    requires |parts| >= 1
  {
    if |parts| == 1 then parts[0] else parts[0] + [c] + Join(parts[1..], c)
  }

  /** Splitting loses nothing: joining the pieces gives the string back. */
  lemma {:induction false} JoinSplit(s: string, c: char)
    ensures Join(Split(s, c), c) == s
  {
    var i := IndexOf(s, c);
    if i < |s| {
      var rest := Split(s[i + 1..], c);
      JoinSplit(s[i + 1..], c);
      assert Split(s, c) == [s[..i]] + rest;
      assert ([s[..i]] + rest)[1..] == rest;
      assert s == s[..i] + [c] + s[i + 1..];
    }
  }

  /** A piece without separator in front of a separator is the first piece. */
  lemma SplitStep(a: string, c: char, rest: string)
    requires c !in a
    ensures Split(a + [c] + rest, c) == [a] + Split(rest, c)
  {
    var s := a + [c] + rest;
    var i := IndexOf(s, c);
    assert s[|a|] == c;
    assert forall j :: 0 <= j < |a| ==> s[j] == a[j] && a[j] in a;
    assert forall j :: 0 <= j < i ==> s[j] == s[..i][j] && s[j] in s[..i];
    assert i == |a|;
    assert s[..i] == a && s[i + 1..] == rest;
  }

  /** Two separator-free pieces in front. */
  lemma SplitTwice(a: string, b: string, c: char, rest: string)
    requires c !in a && c !in b
    ensures Split(a + [c] + (b + [c] + rest), c) == [a] + ([b] + Split(rest, c))
  {
    SplitStep(a, c, b + [c] + rest);
    SplitStep(b, c, rest);
  }

  /** Three separator-free pieces in front. */
  lemma SplitThrice(a: string, b: string, d: string, c: char, rest: string)
    requires c !in a && c !in b && c !in d
    ensures Split(a + [c] + (b + [c] + (d + [c] + rest)), c) == [a] + ([b] + ([d] + Split(rest, c)))
  {
    SplitStep(a, c, b + [c] + (d + [c] + rest));
    SplitTwice(b, d, c, rest);
  }

  /** Three pieces are joined with two separators. */
  lemma JoinThree(a: string, b: string, d: string, c: char)
    ensures Join([a, b, d], c) == a + [c] + (b + [c] + d)
  {
    assert [a, b, d][1..] == [b, d] && [b, d][1..] == [d];
    assert Join([b, d], c) == b + [c] + d;
  }

  lemma SplitWhole(a: string, c: char)
    requires c !in a
    ensures Split(a, c) == [a]
  {
    assert forall j :: 0 <= j < |a| ==> a[j] in a;
  }

  /** The 25 code points of Unicode's White_Space property, which `char::is_whitespace` tests. */
  predicate IsSpace(c: char) {
    var u := c as int;
    (0x09 <= u <= 0x0D) || u == 0x20 || u == 0x85 || u == 0xA0 || u == 0x1680 ||
    (0x2000 <= u <= 0x200A) || u == 0x2028 || u == 0x2029 || u == 0x202F || u == 0x205F || u == 0x3000
  }

  function TrimStart(s: string): (r: string)
    ensures |r| <= |s| && r == s[|s| - |r|..]
    ensures r != "" ==> !IsSpace(r[0])
    ensures forall i :: 0 <= i < |s| - |r| ==> IsSpace(s[i])
  {
    if s != "" && IsSpace(s[0]) then
      var r := TrimStart(s[1..]);
      assert forall i :: 1 <= i < |s| - |r| ==> s[i] == s[1..][i - 1];
      r
    else s
  }

  function TrimEnd(s: string): (r: string)
    ensures |r| <= |s| && r == s[..|r|]
    ensures r != "" ==> !IsSpace(r[|r| - 1])
    ensures forall i :: |r| <= i < |s| ==> IsSpace(s[i])
  {
    if s != "" && IsSpace(s[|s| - 1]) then TrimEnd(s[..|s| - 1]) else s
  }

  /** `str::trim`. */
  function Trim(s: string): (r: string)
    ensures Trimmed(r)
    ensures r == "" <==> AllSpace(s)
    ensures Trimmed(s) ==> r == s
  {
    var t := TrimStart(s);
    var r := TrimEnd(t);
    TrimIsTrimmed(s, t, r);
    TrimOfSpace(s, t, r);
    assert Trimmed(s) ==> r == s by { if Trimmed(s) { TrimOfTrimmed(s, t, r); } }
    r
  }

  lemma TrimIsTrimmed(s: string, t: string, r: string)
    requires t == TrimStart(s) && r == TrimEnd(t)
    ensures Trimmed(r)
  {
    assert r != "" ==> r[0] == t[0];
  }

  lemma TrimOfSpace(s: string, t: string, r: string)
    requires t == TrimStart(s) && r == TrimEnd(t)
    ensures r == "" <==> AllSpace(s)
  {
    var d := |s| - |t|;
    if r == "" {
      assert t == "";
    } else {
      assert s[d] == t[0] == r[0];
    }
  }

  lemma TrimOfTrimmed(s: string, t: string, r: string)
    requires t == TrimStart(s) && r == TrimEnd(t) && Trimmed(s)
    ensures r == s
  {
  }

  predicate Trimmed(s: string) {
    s == "" || (!IsSpace(s[0]) && !IsSpace(s[|s| - 1]))
  }

  predicate AllSpace(s: string) {
    forall i :: 0 <= i < |s| ==> IsSpace(s[i])
  }

  /** Trimming takes off the white space on both sides and nothing else. */
  lemma TrimCuts(a: string, t: string, b: string)
    requires AllSpace(a) && AllSpace(b) && Trimmed(t)
    ensures Trim(a + t + b) == t
  {
    var s := a + t + b;
    if t == "" {
      assert forall i :: 0 <= i < |s| ==> s[i] == if i < |a| then a[i] else b[i - |a|];
      assert AllSpace(s);
    } else {
      assert s[|a|] == t[0] && s[|a| + |t| - 1] == t[|t| - 1];
      var m := TrimStart(s);
      assert |s| - |m| == |a|;
      assert m == t + b;
      var r := TrimEnd(m);
      assert m[|t| - 1] == t[|t| - 1];
      assert |r| == |t|;
    }
  }
}
