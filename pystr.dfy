/**
 * The few methods of Python's `str` that the service and the router call:
 * `lower()`, `strip()`, `startswith()`, `split(sep, 1)`, `split(sep)` and
 * decimal formatting of a non-negative integer.
 *
 * `lower()` is modelled over ASCII (only 'A'..'Z' change); `strip()` uses the
 * whitespace code points of Python's `str.isspace()`.
 */
module PyStr {

  /** Every character is ASCII, which is what `str.encode('ascii')` accepts. */
  predicate IsAscii(s: string) {
    forall i :: 0 <= i < |s| ==> s[i] as int < 128
  }

  lemma AsciiAppend(a: string, b: string)
    requires IsAscii(a) && IsAscii(b)
    ensures IsAscii(a + b)
  {
    forall i | 0 <= i < |a + b| ensures (a + b)[i] as int < 128 {
      if i >= |a| {
        assert (a + b)[i] == b[i - |a|];
      }
    }
  }

  /** `c.isspace()`: the ASCII whitespace and separator controls, and the
      Unicode spaces that Python counts as whitespace. */
  predicate IsSpace(c: char) {
    var n := c as int;
    (9 <= n <= 13) || (28 <= n <= 32) || n == 0x85 || n == 0xA0 || n == 0x1680
    || (0x2000 <= n <= 0x200A) || n == 0x2028 || n == 0x2029 || n == 0x202F
    || n == 0x205F || n == 0x3000
  }

  predicate AllSpace(s: string) {
    forall i :: 0 <= i < |s| ==> IsSpace(s[i])
  }

  /** No whitespace at either end: the shape of every result of `strip()`. */
  predicate Trimmed(s: string) {
    |s| == 0 || (!IsSpace(s[0]) && !IsSpace(s[|s| - 1]))
  }

  /** The length of the longest all-whitespace prefix of `s`. */
  function LeadingSpace(s: string): (n: nat)
    ensures n <= |s|
    ensures forall i :: 0 <= i < n ==> IsSpace(s[i])
    ensures n < |s| ==> !IsSpace(s[n])
  {
    if |s| > 0 && IsSpace(s[0]) then 1 + LeadingSpace(s[1..]) else 0
  }

  /** The length of the longest all-whitespace suffix of `s`. */
  function TrailingSpace(s: string): (n: nat)
    ensures n <= |s|
    ensures forall i :: |s| - n <= i < |s| ==> IsSpace(s[i])
    ensures n < |s| ==> !IsSpace(s[|s| - n - 1])
  {
    if |s| > 0 && IsSpace(s[|s| - 1]) then 1 + TrailingSpace(s[..|s| - 1]) else 0
  }

  /** `s.strip()`: `s` with its leading and trailing whitespace removed. The
      result is trimmed, it is the slice of `s` that starts after the leading
      whitespace, and everything after it in `s` is whitespace. */
  function Strip(s: string): (r: string)
    ensures Trimmed(r)
    ensures LeadingSpace(s) + |r| <= |s| && r == s[LeadingSpace(s)..LeadingSpace(s) + |r|]
    ensures AllSpace(s[LeadingSpace(s) + |r|..])
  {
    var n := LeadingSpace(s);
    var t := s[n..];
    var k := TrailingSpace(t);
    t[..|t| - k]
  }

  /** `strip()` removes exactly the surrounding whitespace: a trimmed string
      padded with whitespace on both sides strips back to itself. Together
      with Strip's own contract this pins `strip()` down completely. */
  lemma StripPadded(a: string, t: string, b: string)
    requires AllSpace(a) && AllSpace(b) && Trimmed(t)
    ensures Strip(a + t + b) == t
  {
    var s := a + t + b;
    var n := LeadingSpace(s);
    if t == [] {
      assert AllSpace(s);
      assert n == |s|;
    } else {
      assert s[|a|] == t[0];
      assert n == |a|;
      var u := s[n..];
      assert u == t + b;
      var k := TrailingSpace(u);
      assert u[|t| - 1] == t[|t| - 1];
      assert k == |b|;
      assert u[..|u| - k] == t;
    }
  }

  /** `strip()` is idempotent. */
  lemma StripIdempotent(s: string)
    ensures Strip(Strip(s)) == Strip(s)
  {
    StripPadded([], Strip(s), []);
    assert [] + Strip(s) + [] == Strip(s);
  }

  function LowerChar(c: char): char {
    if 'A' <= c <= 'Z' then (c as int + 32) as char else c
  }

  /** `s.lower()` over ASCII: upper-case ASCII letters become lower case and
      every other character is kept, so the length never changes. */
  function Lower(s: string): (r: string)
    ensures |r| == |s|
    ensures forall i :: 0 <= i < |r| ==> !('A' <= r[i] <= 'Z')
  {
    seq(|s|, i requires 0 <= i < |s| => LowerChar(s[i]))
  }

  lemma LowerAppend(a: string, b: string)
    ensures Lower(a + b) == Lower(a) + Lower(b)
  {
    assert forall i :: 0 <= i < |a + b| ==> Lower(a + b)[i] == (Lower(a) + Lower(b))[i];
  }

  /** Case-insensitive equality over ASCII, character by character. */
  predicate EqualsIgnoringCase(a: string, b: string) {
    |a| == |b| && forall i :: 0 <= i < |a| ==> LowerChar(a[i]) == LowerChar(b[i])
  }

  /** Comparing lower-cased text with a word that has no upper-case letter
      is comparing the two ignoring case. */
  lemma LowerEqualsWord(a: string, w: string)
    requires forall i :: 0 <= i < |w| ==> !('A' <= w[i] <= 'Z')
    ensures Lower(a) == w <==> EqualsIgnoringCase(a, w)
  {
    if EqualsIgnoringCase(a, w) {
      assert forall i :: 0 <= i < |w| ==> Lower(a)[i] == w[i];
    }
  }

  /** `s.startswith(p)`. */
  predicate StartsWith(s: string, p: string) {
    |p| <= |s| && s[..|p|] == p
  }

  /** A prefix of `s` is a prefix of everything that starts with `s`. */
  lemma StartsWithAppend(s: string, t: string, p: string)
    requires StartsWith(s, p)
    ensures StartsWith(s + t, p)
  {
    assert (s + t)[..|p|] == s[..|p|];
  }

  /** `s.find(c)`: the index of the first `c` in `s`, or -1 when there is none. */
  function Find(s: string, c: char): (r: int)
    ensures -1 <= r < |s|
    ensures r == -1 <==> c !in s
    ensures 0 <= r ==> s[r] == c && forall j :: 0 <= j < r ==> s[j] != c
  {
    if |s| == 0 then -1
    else if s[0] == c then 0
    else
      var k := Find(s[1..], c);
      if k == -1 then -1 else k + 1
  }

  /** `s.split(c, 1)`: a single part when `c` does not occur, otherwise the
      text before the first `c` and everything after it, and the two parts
      joined by `c` give back `s`. */
  function SplitOnce(s: string, c: char): (parts: seq<string>)
    ensures |parts| == (if c in s then 2 else 1)
    ensures |parts| == 1 ==> parts[0] == s
    ensures |parts| == 2 ==> c !in parts[0] && parts[0] + [c] + parts[1] == s
  {
    var i := Find(s, c);
    if i < 0 then [s]
    else
      assert s[..i] + [c] + s[i + 1..] == s;
      [s[..i], s[i + 1..]]
  }

  /** `s.split(c)`: the pieces of `s` between occurrences of `c`, read
      character by character: a separator starts a new piece, any other
      character extends the first piece of the rest. */
  function SplitAll(s: string, c: char): (parts: seq<string>)
    ensures |parts| >= 1
  {
    if |s| == 0 then [""]
    else
      var rest := SplitAll(s[1..], c);
      if s[0] == c then [""] + rest else [[s[0]] + rest[0]] + rest[1..]
  }

  /** `c.join(parts)`. */
  function Join(parts: seq<string>, c: char): string
    requires |parts| >= 1
  {
    if |parts| == 1 then parts[0] else parts[0] + [c] + Join(parts[1..], c)
  }

  /** Splitting loses nothing: joining the pieces with the separator gives
      back the string. */
  lemma {:induction false} JoinSplitAll(s: string, c: char)
    ensures Join(SplitAll(s, c), c) == s
  {
    if |s| > 0 {
      var rest := SplitAll(s[1..], c);
      JoinSplitAll(s[1..], c);
      var parts := SplitAll(s, c);
      if s[0] == c {
        assert parts[1..] == rest;
        assert [s[0]] + s[1..] == s;
      } else if |rest| == 1 {
        assert [s[0]] + s[1..] == s;
      } else {
        assert parts[1..] == rest[1..];
        assert Join(rest, c) == rest[0] + [c] + Join(rest[1..], c);
        assert [s[0]] + (rest[0] + [c] + Join(rest[1..], c)) == [s[0]] + s[1..];
      }
    }
  }

  /** The first separator after a separator-free prefix is the one that
      ends the prefix. */
  lemma FindAfterPrefix(x: string, c: char, rest: string)
    requires c !in x
    ensures Find(x + [c] + rest, c) == |x|
  {
    var s := x + [c] + rest;
    var i := Find(s, c);
    assert s[|x|] == c;
    assert forall j :: 0 <= j < |x| ==> s[j] == x[j];
  }

  /** A separator-free string splits into itself alone. */
  lemma {:induction false} SplitAllOneLine(x: string, c: char)
    requires c !in x
    ensures SplitAll(x, c) == [x]
  {
    if |x| > 0 {
      assert c !in x[1..];
      SplitAllOneLine(x[1..], c);
      assert [x[0]] + x[1..] == x;
    }
  }

  /** Appending a separator and a separator-free piece to a string appends
      that piece to the string's split. */
  lemma {:induction false} SplitAllAppendLine(s: string, x: string, c: char)
    requires c !in x
    ensures SplitAll(s + [c] + x, c) == SplitAll(s, c) + [x]
  {
    var u := s + [c] + x;
    if |s| == 0 {
      assert u == [c] + x && u[1..] == x;
      SplitAllOneLine(x, c);
    } else {
      assert u[0] == s[0] && u[1..] == s[1..] + [c] + x;
      SplitAllAppendLine(s[1..], x, c);
      var rest := SplitAll(s[1..], c);
      if s[0] != c {
        assert (rest + [x])[1..] == rest[1..] + [x];
      }
    }
  }

  /** Six separator-free lines joined by the separator split back into the
      six lines. */
  lemma SplitSixLines(a: string, b: string, c: string, d: string, e: string, f: string, sep: char)
    requires sep !in a && sep !in b && sep !in c && sep !in d && sep !in e && sep !in f
    ensures SplitAll(a + [sep] + b + [sep] + c + [sep] + d + [sep] + e + [sep] + f, sep) == [a, b, c, d, e, f]
  {
    var p2 := a + [sep] + b;
    var p3 := p2 + [sep] + c;
    var p4 := p3 + [sep] + d;
    var p5 := p4 + [sep] + e;
    SplitAllOneLine(a, sep);
    SplitAllAppendLine(a, b, sep);
    assert SplitAll(p2, sep) == [a, b];
    SplitAllAppendLine(p2, c, sep);
    assert SplitAll(p3, sep) == [a, b, c];
    SplitAllAppendLine(p3, d, sep);
    assert SplitAll(p4, sep) == [a, b, c, d];
    SplitAllAppendLine(p4, e, sep);
    assert SplitAll(p5, sep) == [a, b, c, d, e];
    SplitAllAppendLine(p5, f, sep);
  }

  /** Two strings between the same prefix and suffix are equal when the
      surrounding strings are. */
  lemma SameContextSameMiddle(p: string, x: string, y: string, q: string)
    ensures p + x + q == p + y + q <==> x == y
  {
    if p + x + q == p + y + q {
      assert x == (p + x + q)[|p|..|p| + |x|];
    }
  }

  /** Six lines joined by a separator, with only the fifth line varying,
      give the same text exactly when the fifth lines are the same. */
  lemma FifthLineDecides(a: string, b: string, c: string, d: string, e1: string, e2: string, f: string, sep: char)
    ensures (a + [sep] + b + [sep] + c + [sep] + d + [sep] + e1 + [sep] + f
          == a + [sep] + b + [sep] + c + [sep] + d + [sep] + e2 + [sep] + f) <==> e1 == e2
  {
    var before := a + [sep] + b + [sep] + c + [sep] + d + [sep];
    SameContextSameMiddle(before, e1, e2, [sep] + f);
    assert before + e1 + [sep] + f == before + e1 + ([sep] + f);
    assert before + e2 + [sep] + f == before + e2 + ([sep] + f);
  }

  function DigitChar(d: nat): char
    requires d < 10
  {
    ('0' as int + d) as char
  }

  predicate AllDigits(s: string) {
    forall i :: 0 <= i < |s| ==> '0' <= s[i] <= '9'
  }

  /** Decimal reading of a string of digits. */
  function DecimalValue(s: string): nat
    requires AllDigits(s)
  {
    if |s| == 0 then 0
    else DecimalValue(s[..|s| - 1]) * 10 + (s[|s| - 1] as int - '0' as int)
  }

  /** `str(n)` (and C's `%zd`) for a non-negative integer: a non-empty string
      of decimal digits without a leading zero. */
  function NatToDecimal(n: nat): (r: string)
    ensures |r| >= 1 && AllDigits(r)
    ensures r[0] == '0' ==> n == 0
  {
    if n < 10 then [DigitChar(n)] else NatToDecimal(n / 10) + [DigitChar(n % 10)]
  }

  /** Reading back the decimal text of `n` gives `n`. */
  lemma {:induction false} DecimalRoundTrip(n: nat)
    ensures DecimalValue(NatToDecimal(n)) == n
  {
    if n >= 10 {
      DecimalRoundTrip(n / 10);
      var r := NatToDecimal(n);
      assert r[..|r| - 1] == NatToDecimal(n / 10);
    }
  }
}
