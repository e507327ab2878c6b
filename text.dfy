/** The string operations the parser relies on: Python's `str.split`, `str.strip`,
    ASCII digits and ASCII case folding. */
module Text {
  import opened Outcome

  /** Python's `str.isspace()`; `str.strip()` and the regular-expression class `\s`
      both use this set. */
  predicate IsSpace(c: char) {
    c == ' ' || '\t' <= c <= '\r' || '\U{1C}' <= c <= '\U{1F}' || c == '\U{85}' || c == '\U{A0}'
    || c == '\U{1680}' || '\U{2000}' <= c <= '\U{200A}' || c == '\U{2028}' || c == '\U{2029}'
    || c == '\U{202F}' || c == '\U{205F}' || c == '\U{3000}'
  }

  predicate IsDigit(c: char) {
    '0' <= c <= '9'
  }

  predicate AllDigits(s: string) {
    forall k :: 0 <= k < |s| ==> IsDigit(s[k])
  }

  function DigitValue(c: char): (v: nat)
    requires IsDigit(c)
    ensures v < 10
  {
    c as int - '0' as int
  }

  function DigitChar(v: nat): (c: char)
    requires v < 10
    ensures IsDigit(c) && DigitValue(c) == v
  {
    ('0' as int + v) as char
  }

  /** The decimal value of a string of digits. */
  function Value(s: string): nat
    requires AllDigits(s)
  {
    if s == [] then 0 else 10 * Value(s[..|s| - 1]) + DigitValue(s[|s| - 1])
  }

  /** A one- or two-digit decimal number, the shape every strptime field used here accepts. */
  function ParseSmall(s: string): (r: Option<nat>)
    ensures r.Some? <==> 1 <= |s| <= 2 && AllDigits(s)
    ensures r.Some? ==> r.value < 100 && r.value == Value(s)
  {
    if 1 <= |s| <= 2 && AllDigits(s) then
      assert Value(s[..1]) < 10 by {
        assert s[..1][..0] == [];
      }
      assert |s| == 1 ==> s[..1] == s;
      Some(Value(s))
    else None
  }

  /** A number below 100 written with two digits, zero-padded. */
  function Pad2(v: nat): (s: string)
    requires v < 100
  {
    [DigitChar(v / 10), DigitChar(v % 10)]
  }

  /** A two-digit zero-padded number reads back as itself. */
  lemma Pad2RoundTrip(v: nat)
    requires v < 100
    ensures ParseSmall(Pad2(v)) == Some(v)
  {
    var s := Pad2(v);
    assert s[..1] == [DigitChar(v / 10)] && s[..1][..0] == [];
    assert Value(s[..1]) == v / 10;
    assert Value(s) == 10 * (v / 10) + v % 10;
  }

  /** The number of digits at the start of `s`. */
  function LeadingDigits(s: string): (n: nat)
    ensures n <= |s| && AllDigits(s[..n])
    ensures n < |s| ==> !IsDigit(s[n])
  {
    if s != [] && IsDigit(s[0]) then
      var n := 1 + LeadingDigits(s[1..]);
      assert s[..n] == [s[0]] + s[1..][..n - 1];
      n
    else 0
  }

  /** The leading digits of a text are those of its all-digit prefix. */
  lemma {:induction false} LeadingDigitsOf(d: string, rest: string)
    requires AllDigits(d) && (rest == [] || !IsDigit(rest[0]))
    ensures LeadingDigits(d + rest) == |d|
  {
    if d != [] {
      assert (d + rest)[1..] == d[1..] + rest;
      LeadingDigitsOf(d[1..], rest);
    }
  }

  function LowerChar(c: char): char {
    if 'A' <= c <= 'Z' then (c as int + 32) as char else c
  }

  /** ASCII case folding, as used to compare month names case-insensitively. */
  function Lower(s: string): string
  {
    seq(|s|, k requires 0 <= k < |s| => LowerChar(s[k]))
  }

  /** The position of the first `c` in `s`. */
  function IndexOf(s: string, c: char): (i: nat)
    requires c in s
    ensures i < |s| && s[i] == c && c !in s[..i]
  {
    if s[0] == c then 0
    else
      var i := 1 + IndexOf(s[1..], c);
      assert s[..i] == [s[0]] + s[1..][..i - 1];
      i
  }

  /** The first `c` is the one right after a prefix free of `c`. */
  lemma FirstAfter(a: string, c: char, b: string)
    requires c !in a
    ensures c in a + [c] + b && IndexOf(a + [c] + b, c) == |a|
    ensures (a + [c] + b)[..|a|] == a && (a + [c] + b)[|a| + 1..] == b
  {
    var s := a + [c] + b;
    assert s[|a|] == c;
    assert s[..|a|] == a;
  }

  /** The pieces, separated by `sep`, glued back together. */
  function Join(pieces: seq<string>, sep: char): string
    requires |pieces| >= 1
  {
    if |pieces| == 1 then pieces[0] else pieces[0] + [sep] + Join(pieces[1..], sep)
  }

  /** Python's `s.split(sep)` for a one-character separator: the text between separators,
      including empty pieces, with at least one piece. */
  function Split(s: string, sep: char): (pieces: seq<string>)
    ensures |pieces| >= 1
    ensures forall k :: 0 <= k < |pieces| ==> sep !in pieces[k]
    ensures Join(pieces, sep) == s
    decreases |s|
  {
    if sep !in s then [s]
    else
      var i := IndexOf(s, sep);
      var rest := Split(s[i + 1..], sep);
      assert s == s[..i] + [sep] + s[i + 1..];
      [s[..i]] + rest
  }

  /** The text before the first separator is the first piece, and the remaining pieces
      are the split of the text after it. */
  lemma SplitAt(a: string, sep: char, b: string)
    requires sep !in a
    ensures Split(a + [sep] + b, sep) == [a] + Split(b, sep)
  {
    var s := a + [sep] + b;
    assert s[|a|] == sep;
    var i := IndexOf(s, sep);
    assert s[..i] == a && s[i + 1..] == b;
  }

  /** Splitting is the inverse of joining pieces that hold no separator. */
  lemma {:induction false} SplitJoin(pieces: seq<string>, sep: char)
    requires |pieces| >= 1
    requires forall k :: 0 <= k < |pieces| ==> sep !in pieces[k]
    ensures Split(Join(pieces, sep), sep) == pieces
  {
    if |pieces| > 1 {
      assert sep !in pieces[0];
      assert pieces == [pieces[0]] + pieces[1..];
      assert forall k :: 0 <= k < |pieces| - 1 ==> pieces[1..][k] == pieces[k + 1];
      SplitJoin(pieces[1..], sep);
      SplitAt(pieces[0], sep, Join(pieces[1..], sep));
    }
  }

  /** The number of whitespace characters `s` starts with. */
  function LeadingSpaces(s: string): (n: nat)
    ensures n <= |s|
    ensures forall k :: 0 <= k < n ==> IsSpace(s[k])
    ensures n < |s| ==> !IsSpace(s[n])
  {
    if s != [] && IsSpace(s[0]) then 1 + LeadingSpaces(s[1..]) else 0
  }

  /** The number of whitespace characters `s` ends with. */
  function TrailingSpaces(s: string): (n: nat)
    ensures n <= |s|
    ensures forall k :: |s| - n <= k < |s| ==> IsSpace(s[k])
    ensures n < |s| ==> !IsSpace(s[|s| - 1 - n])
  {
    if s != [] && IsSpace(s[|s| - 1]) then 1 + TrailingSpaces(s[..|s| - 1]) else 0
  }

  /** The text after its leading whitespace: what is left once the `\s+` that strptime
      puts in place of a space in the format has matched. */
  function TrimLeft(s: string): (r: string)
    ensures r != [] ==> !IsSpace(r[0])
  {
    s[LeadingSpaces(s)..]
  }

  /** Python's `s.strip()`: the middle of `s`, with only whitespace cut from either end,
      and no whitespace left at either end. */
  function Strip(s: string): (r: string)
    ensures r != [] ==> !IsSpace(r[0]) && !IsSpace(r[|r| - 1])
    ensures var i := LeadingSpaces(s);
            i + |r| <= |s| && r == s[i..i + |r|]
            && (forall k :: 0 <= k < i ==> IsSpace(s[k]))
            && (forall k :: i + |r| <= k < |s| ==> IsSpace(s[k]))
  {
    var i := LeadingSpaces(s);
    if i == |s| then [] else s[i..|s| - TrailingSpaces(s)]
  }

  /** Text with no whitespace at either end. */
  predicate Trimmed(s: string) {
    s == [] || (!IsSpace(s[0]) && !IsSpace(s[|s| - 1]))
  }

  /** Text without whitespace at either end is left as it is. */
  lemma StripTrimmed(s: string)
    requires Trimmed(s)
    ensures Strip(s) == s
  {
  }

  lemma StripIdempotent(s: string)
    ensures Strip(Strip(s)) == Strip(s)
  {
    StripTrimmed(Strip(s));
  }

  /** Whitespace on either side of a text without border whitespace is exactly what
      `strip` removes. */
  lemma StripSurrounded(l: string, a: string, r: string)
    requires forall k :: 0 <= k < |l| ==> IsSpace(l[k])
    requires forall k :: 0 <= k < |r| ==> IsSpace(r[k])
    requires a != [] && Trimmed(a)
    ensures Strip(l + a + r) == a
  {
    var s := l + a + r;
    assert s == l + (a + r);
    LeadingSpacesOf(l, a + r);
    assert s == (l + a) + r;
    TrailingSpacesOf(l + a, r);
    assert s[|l|..|s| - |r|] == a;
  }

  lemma {:induction false} LeadingSpacesOf(l: string, t: string)
    requires forall k :: 0 <= k < |l| ==> IsSpace(l[k])
    requires t == [] || !IsSpace(t[0])
    ensures LeadingSpaces(l + t) == |l|
  {
    if l != [] {
      assert (l + t)[1..] == l[1..] + t;
      LeadingSpacesOf(l[1..], t);
    }
  }

  lemma {:induction false} TrailingSpacesOf(t: string, r: string)
    requires forall k :: 0 <= k < |r| ==> IsSpace(r[k])
    requires t == [] || !IsSpace(t[|t| - 1])
    ensures TrailingSpaces(t + r) == |r|
  {
    if r != [] {
      assert (t + r)[..|t + r| - 1] == t + r[..|r| - 1];
      TrailingSpacesOf(t, r[..|r| - 1]);
    }
  }
}
