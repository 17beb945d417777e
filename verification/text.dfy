/** The handful of Python string built-ins the backup driver relies on: character classes,
    `rstrip`/`strip`, `find`/`rfind`, slicing with negative indices, `str.replace` of one
    character, `%-Ns`/`%Nd` padding, `str(int)` and `int(str)`. */
module Text {
  import opened Common

  predicate IsDigit(c: char) {
    '0' <= c <= '9'
  }

  /** `str.isalnum`, restricted to ASCII letters and digits. */
  predicate IsAlnum(c: char) {
    IsDigit(c) || 'a' <= c <= 'z' || 'A' <= c <= 'Z'
  }

  /** `str.isspace`: the characters Python treats as whitespace. */
  predicate IsSpace(c: char) {
    var n := c as int;
    || 0x09 <= n <= 0x0D || 0x1C <= n <= 0x20 || n == 0x85 || n == 0xA0 || n == 0x1680
    || 0x2000 <= n <= 0x200A || n == 0x2028 || n == 0x2029 || n == 0x202F || n == 0x205F
    || n == 0x3000
  }

  lemma AlnumIsNotSpace(c: char)
    requires IsAlnum(c)
    ensures !IsSpace(c)
  {
  }

  /** `s.rstrip()`: the longest prefix of `s` that does not end in whitespace. */
  function RStrip(s: string): (r: string)
    ensures |r| <= |s| && r == s[..|r|]
    ensures r == [] || !IsSpace(r[|r| - 1])
    ensures forall i :: |r| <= i < |s| ==> IsSpace(s[i])
  {
    if s != [] && IsSpace(s[|s| - 1]) then RStrip(s[..|s| - 1]) else s
  }

  /** `s.lstrip()`: the longest suffix of `s` that does not start with whitespace. */
  function LStrip(s: string): (r: string)
    ensures |r| <= |s| && r == s[|s| - |r|..]
    ensures r == [] || !IsSpace(r[0])
    ensures forall i :: 0 <= i < |s| - |r| ==> IsSpace(s[i])
  {
    if s != [] && IsSpace(s[0]) then LStrip(s[1..]) else s
  }

  /** `s.strip()`. */
  function Strip(s: string): string {
    LStrip(RStrip(s))
  }

  /** Stripping keeps every character that is not whitespace. */
  lemma StripKeeps(s: string, i: int)
    requires 0 <= i < |s| && !IsSpace(s[i])
    ensures s[i] in Strip(s)
  {
    var t := RStrip(s);
    assert s[i] == t[i];
    var u := LStrip(t);
    assert t[i] == u[i - (|t| - |u|)];
  }

  /** `s[i:i+len(pat)] == pat`, with the slice in range. */
  predicate OccursAt(s: string, pat: string, i: int) {
    0 <= i && i + |pat| <= |s| && s[i..i + |pat|] == pat
  }

  /** Where `pat` occurs, its `k`-th character stands `k` places on. */
  lemma OccursAtChars(s: string, pat: string, i: int, k: int)
    requires 0 <= k < |pat|
    ensures OccursAt(s, pat, i) ==> 0 <= i + k < |s| && s[i + k] == pat[k]
  {
    if OccursAt(s, pat, i) {
      assert s[i..i + |pat|][k] == s[i + k];
    }
  }

  /** A one-character pattern occurs exactly where that character stands. */
  lemma OccursAtChar(s: string, c: char, i: int)
    ensures OccursAt(s, [c], i) <==> 0 <= i < |s| && s[i] == c
  {
    if 0 <= i < |s| && s[i] == c {
      assert s[i..i + 1] == [c];
    }
  }

  function FindFrom(s: string, pat: string, from: nat): (r: int)
    ensures r == -1 || (from <= r && OccursAt(s, pat, r))
    ensures r == -1 ==> forall i :: from <= i ==> !OccursAt(s, pat, i)
    ensures forall i :: from <= i < r ==> !OccursAt(s, pat, i)
    decreases |s| - from
  {
    if from + |pat| > |s| then -1
    else if s[from..from + |pat|] == pat then from
    else FindFrom(s, pat, from + 1)
  }

  /** `s.find(pat)`: the lowest index where `pat` occurs, or -1. */
  function Find(s: string, pat: string): int {
    FindFrom(s, pat, 0)
  }

  function RFindFrom(s: string, pat: string, upto: int): (r: int)
    ensures r == -1 || (r <= upto && OccursAt(s, pat, r))
    ensures forall i :: r < i <= upto ==> !OccursAt(s, pat, i)
    decreases upto + 1
  {
    if upto < 0 then -1
    else if OccursAt(s, pat, upto) then upto
    else RFindFrom(s, pat, upto - 1)
  }

  /** `s.rfind(pat)`: the highest index where `pat` occurs, or -1. */
  function RFind(s: string, pat: string): int {
    RFindFrom(s, pat, |s|)
  }

  /** The first occurrence found by `Find` is the one that has none before it. */
  lemma FindIsFirst(s: string, pat: string, q: int)
    requires OccursAt(s, pat, q)
    requires forall i :: 0 <= i < q ==> !OccursAt(s, pat, i)
    ensures Find(s, pat) == q
  {
  }

  /** The occurrence found by `RFind` is the one that has none after it. */
  lemma RFindIsLast(s: string, pat: string, q: int)
    requires OccursAt(s, pat, q)
    requires forall i :: q < i <= |s| ==> !OccursAt(s, pat, i)
    ensures RFind(s, pat) == q
  {
  }

  /** Python's clamping of a slice bound, negative values counting from the end. */
  function SliceBound(i: int, n: nat): (r: nat)
    ensures r <= n
  {
    if i < 0 then (if i + n < 0 then 0 else i + n)
    else if i > n then n
    else i
  }

  /** `s[start:end]` for a Python list or string. */
  function PySlice<T>(s: seq<T>, start: int, end: int): seq<T> {
    var a := SliceBound(start, |s|);
    var b := SliceBound(end, |s|);
    if a < b then s[a..b] else []
  }

  /** `s.replace(target, replacement)` for single characters. */
  function ReplaceChar(s: string, target: char, replacement: char): (r: string)
    ensures |r| == |s|
    ensures forall i :: 0 <= i < |s| ==> r[i] == (if s[i] == target then replacement else s[i])
  {
    seq(|s|, i requires 0 <= i < |s| => if s[i] == target then replacement else s[i])
  }

  function Spaces(n: int): (r: string)
    ensures |r| == if n < 0 then 0 else n
    ensures forall i :: 0 <= i < |r| ==> r[i] == ' '
  {
    if n <= 0 then [] else [' '] + Spaces(n - 1)
  }

  /** `'%-Ns' % s`: left-justified in a field of `width` characters, never truncated. */
  function PadRight(s: string, width: int): string {
    s + Spaces(width - |s|)
  }

  /** `'%Ns' % s`: right-justified in a field of `width` characters, never truncated. */
  function PadLeft(s: string, width: int): string {
    Spaces(width - |s|) + s
  }

  /** `%-Ns` keeps the text whole at the left and fills with spaces up to the width. */
  lemma PadRightShape(s: string, width: int)
    ensures var r := PadRight(s, width);
      && |r| == (if |s| < width then width else |s|)
      && r[..|s|] == s
      && forall i :: |s| <= i < |r| ==> r[i] == ' '
  {
    assert PadRight(s, width)[..|s|] == s;
  }

  /** `%Ns` keeps the text whole at the right and fills with spaces up to the width. */
  lemma PadLeftShape(s: string, width: int)
    ensures var r := PadLeft(s, width);
      && |r| == (if |s| < width then width else |s|)
      && r[|r| - |s|..] == s
      && forall i :: 0 <= i < |r| - |s| ==> r[i] == ' '
  {
    assert PadLeft(s, width)[|PadLeft(s, width)| - |s|..] == s;
  }

  function DigitChar(d: int): (c: char)
    requires 0 <= d < 10
    ensures IsDigit(c)
  {
    ('0' as int + d) as char
  }

  function DigitValue(c: char): (d: int)
    requires IsDigit(c)
    ensures 0 <= d < 10 && DigitChar(d) == c
  {
    c as int - '0' as int
  }

  predicate AllDigits(s: string) {
    forall i :: 0 <= i < |s| ==> IsDigit(s[i])
  }

  /** Decimal digits of a natural number, most significant first, without leading zeros. */
  function NatToString(n: nat): (r: string)
    ensures |r| > 0 && AllDigits(r)
    ensures n > 0 ==> r[0] != '0'
  {
    if n < 10 then [DigitChar(n)] else NatToString(n / 10) + [DigitChar(n % 10)]
  }

  /** `str(n)` and `'%d' % n`. */
  function IntToString(n: int): (r: string)
    ensures |r| > 0
    ensures forall i :: 0 <= i < |r| ==> IsDigit(r[i]) || (i == 0 && r[i] == '-')
  {
    if n < 0 then "-" + NatToString(-n) else NatToString(n)
  }

  /** The value of a string of decimal digits. */
  function DigitsValue(s: string): nat
    requires AllDigits(s)
  {
    if s == [] then 0 else 10 * DigitsValue(s[..|s| - 1]) + DigitValue(s[|s| - 1])
  }

  /** `int(s)`: optional surrounding whitespace, an optional sign, then decimal digits;
      `None` stands for the `ValueError` Python raises otherwise. */
  function ParseInt(s: string): Option<int> {
    var t := Strip(s);
    if t != [] && (t[0] == '-' || t[0] == '+') then
      var digits := t[1..];
      if digits != [] && AllDigits(digits) then
        var v: int := DigitsValue(digits);
        Some(if t[0] == '-' then -v else v)
      else None
    else if t != [] && AllDigits(t) then Some(DigitsValue(t))
    else None
  }

  lemma {:induction false} NatToStringRoundTrip(n: nat)
    ensures DigitsValue(NatToString(n)) == n
  {
    if n >= 10 {
      NatToStringRoundTrip(n / 10);
      var s := NatToString(n);
      assert s[..|s| - 1] == NatToString(n / 10);
    }
  }

  /** A string with no whitespace at either end is its own `strip()`. */
  lemma StripUnpadded(s: string)
    requires s != [] && !IsSpace(s[0]) && !IsSpace(s[|s| - 1])
    ensures Strip(s) == s
  {
  }

  /** `int(str(n)) == n`. */
  lemma IntToStringRoundTrip(n: int)
    ensures ParseInt(IntToString(n)) == Some(n)
  {
    if n < 0 {
      NegativeRoundTrip(n);
    } else {
      NatRoundTrip(n);
    }
  }

  lemma NatRoundTrip(n: nat)
    ensures ParseInt(NatToString(n)) == Some(n)
  {
    NatToStringRoundTrip(n);
    ParseDigits(NatToString(n), n);
  }

  /** A plain string of digits parses to its value. */
  lemma ParseDigits(s: string, v: int)
    requires s != [] && AllDigits(s) && DigitsValue(s) == v
    ensures ParseInt(s) == Some(v)
  {
    AlnumIsNotSpace(s[0]);
    AlnumIsNotSpace(s[|s| - 1]);
    StripUnpadded(s);
    var t := Strip(s);
    assert t == s;
    assert t[0] != '-' && t[0] != '+';
  }

  lemma NegativeRoundTrip(n: int)
    requires n < 0
    ensures ParseInt("-" + NatToString(-n)) == Some(n)
  {
    NatToStringRoundTrip(-n);
    ParseNegative(NatToString(-n), n);
  }

  /** A minus sign followed by digits parses to the negated value. */
  lemma ParseNegative(d: string, v: int)
    requires d != [] && AllDigits(d) && DigitsValue(d) == -v
    ensures ParseInt("-" + d) == Some(v)
  {
    var s := "-" + d;
    assert s[1..] == d && s[|s| - 1] == d[|d| - 1];
    AlnumIsNotSpace(d[|d| - 1]);
    StripUnpadded(s);
  }

  /** `int(s)` fails as soon as `s` holds a character that is neither whitespace,
      a digit nor a sign. */
  lemma ParseIntRejects(s: string, i: int)
    requires 0 <= i < |s|
    requires !IsSpace(s[i]) && !IsDigit(s[i]) && s[i] != '-' && s[i] != '+'
    ensures ParseInt(s) == None
  {
    StripKeeps(s, i);
    var t := Strip(s);
    var k :| 0 <= k < |t| && t[k] == s[i];
    if t[0] == '-' || t[0] == '+' {
      assert t[1..][k - 1] == t[k];
    } else {
      assert !IsDigit(t[k]);
    }
  }
}
