/** The JavaScript number and string operations the client's formatters use:
    decimal `toString`, the truncating `%`, `padStart`, `trim`; and, as their
    partners, readers that recover the numbers from the rendered text. */
module Text {
  import opened Wrappers
  import opened Seqs

  predicate IsDigit(c: char) {
    '0' <= c <= '9'
  }

  predicate AllDigits(s: string) {
    forall i :: 0 <= i < |s| ==> IsDigit(s[i])
  }

  function DigitChar(d: nat): (c: char)
    requires d < 10
    ensures IsDigit(c)
  {
    (48 + d) as char
  }

  /** The number a string of decimal digits denotes, most significant digit first. */
  function DigitsValue(s: string): int {
    if |s| == 0 then 0
    else DigitsValue(s[..|s| - 1]) * 10 + ((s[|s| - 1] as int) - 48)
  }

  /** JavaScript's `n.toString()` for a non-negative integer: no leading zeros. */
  function NatToString(n: nat): (s: string)
    ensures 1 <= |s|
    ensures AllDigits(s)
    ensures DigitsValue(s) == n
    ensures |s| == 1 <==> n < 10
    ensures n < 100 ==> |s| <= 2
    ensures s[0] == '0' ==> n == 0
    decreases n
  {
    if n < 10 then [DigitChar(n)]
    else
      var s := NatToString(n / 10) + [DigitChar(n % 10)];
      assert s[..|s| - 1] == NatToString(n / 10);
      s
  }

  /** JavaScript's `n.toString()` for any integer: a minus sign before the magnitude. */
  function IntToString(n: int): (s: string)
    ensures n >= 0 ==> AllDigits(s) && 1 <= |s| && DigitsValue(s) == n
    ensures n < 0 ==> |s| >= 2 && s[0] == '-' && AllDigits(s[1..]) && DigitsValue(s[1..]) == -n
    ensures n >= 0 ==> (s[0] == '0' ==> n == 0)
    ensures n < 0 ==> s[1] != '0'
  {
    if n < 0 then "-" + NatToString(-n) else NatToString(n)
  }

  /** Reads back a non-empty string of decimal digits. */
  function ParseNat(s: string): (r: Option<nat>)
    ensures r.Some? <==> 1 <= |s| && AllDigits(s)
    ensures r.Some? ==> r.value == DigitsValue(s)
  {
    if 1 <= |s| && AllDigits(s) then
      DigitsValueOfDigits(s);
      Some(DigitsValue(s))
    else None
  }

  lemma {:induction false} DigitsValueOfDigits(s: string)
    requires AllDigits(s)
    ensures DigitsValue(s) >= 0
  {
    if |s| > 0 {
      DigitsValueOfDigits(s[..|s| - 1]);
    }
  }

  /** JavaScript's `a % b` for a positive divisor: the remainder takes the sign
      of the dividend (Dafny's `%` never goes negative). */
  function JsRem(a: int, b: int): (r: int)
    requires b > 0
    ensures a >= 0 ==> 0 <= r < b
    ensures a < 0 ==> -b < r <= 0
    ensures a >= 0 ==> r == a % b
    ensures a < 0 ==> r == -JsRem(-a, b)
    decreases if a < 0 then 1 else 0
  {
    if a >= 0 then a % b else -((-a) % b)
  }

  /** The `Math.floor(m / 60)` and `m % 60` pair both minute formatters compute. */
  function HoursAndMinutes(minutes: int): (hm: (int, int))
    ensures minutes >= 0 ==> hm.0 >= 0 && 0 <= hm.1 < 60 && 60 * hm.0 + hm.1 == minutes
    ensures minutes < 60 ==> hm.0 <= 0
    ensures minutes >= 60 ==> hm.0 >= 1
  {
    (minutes / 60, JsRem(minutes, 60))
  }

  function Repeat(c: char, n: nat): (r: string)
    ensures |r| == n
    ensures forall i :: 0 <= i < n ==> r[i] == c
  {
    if n == 0 then [] else [c] + Repeat(c, n - 1)
  }

  /** JavaScript's `s.padStart(width, fill)` with a one-character fill. */
  function PadStart(s: string, width: nat, fill: char): (r: string)
    ensures |r| == if |s| >= width then |s| else width
    ensures r[|r| - |s|..] == s
    ensures forall i :: 0 <= i < |r| - |s| ==> r[i] == fill
  {
    if |s| >= width then s else Repeat(fill, width - |s|) + s
  }

  /** Leading zeros do not change the value of a digit string. */
  lemma {:induction false} LeadingZeros(k: nat, s: string)
    ensures DigitsValue(Repeat('0', k) + s) == DigitsValue(s)
    decreases |s|, k
  {
    var z := Repeat('0', k);
    if |s| == 0 {
      assert z + s == z;
      if k > 0 {
        assert z[..|z| - 1] == Repeat('0', k - 1) + [];
        LeadingZeros(k - 1, []);
      }
    } else {
      assert (z + s)[..|z + s| - 1] == z + s[..|s| - 1];
      LeadingZeros(k, s[..|s| - 1]);
    }
  }

  /** Zero-padding keeps a digit string a digit string of the same value. */
  lemma PadZeros(s: string, width: nat)
    requires AllDigits(s)
    ensures AllDigits(PadStart(s, width, '0'))
    ensures DigitsValue(PadStart(s, width, '0')) == DigitsValue(s)
  {
    if |s| < width {
      LeadingZeros(width - |s|, s);
    }
  }

  /** JavaScript's `s.split(sep)` for a one-character separator. */
  function Split(s: string, sep: char): (r: seq<string>)
    ensures |r| >= 1
  {
    if |s| == 0 then [""]
    else
      var rest := Split(s[1..], sep);
      if s[0] == sep then [""] + rest else [[s[0]] + rest[0]] + rest[1..]
  }

  /** A string with no separator splits into itself. */
  lemma {:induction false} SplitWhole(a: string, sep: char)
    requires sep !in a
    ensures Split(a, sep) == [a]
  {
    if |a| > 0 {
      assert sep !in a[1..];
      SplitWhole(a[1..], sep);
      assert [a[0]] + a[1..] == a;
    }
  }

  /** Splitting stops at the first separator. */
  lemma {:induction false} SplitAtFirst(a: string, b: string, sep: char)
    requires sep !in a
    ensures Split(a + [sep] + b, sep) == [a] + Split(b, sep)
  {
    var s := a + [sep] + b;
    if |a| == 0 {
      assert s[1..] == b;
    } else {
      assert s[1..] == a[1..] + [sep] + b;
      assert sep !in a[1..];
      SplitAtFirst(a[1..], b, sep);
      assert [a[0]] + a[1..] == a;
    }
  }

  /** Two separator-free fields joined by the separator split back into the two. */
  lemma SplitTwo(a: string, b: string, sep: char)
    requires sep !in a && sep !in b
    ensures Split(a + [sep] + b, sep) == [a, b]
  {
    SplitAtFirst(a, b, sep);
    SplitWhole(b, sep);
  }

  /** Three separator-free fields joined by the separator split back into the three. */
  lemma SplitThree(a: string, b: string, c: string, sep: char)
    requires sep !in a && sep !in b && sep !in c
    ensures Split(a + [sep] + b + [sep] + c, sep) == [a, b, c]
  {
    var tail := b + [sep] + c;
    SplitTwo(b, c, sep);
    assert Split(tail, sep) == [b, c];
    SplitAtFirst(a, tail, sep);
    assert a + [sep] + b + [sep] + c == a + [sep] + tail;
  }

  /** Reads `<digits><unit>`, such as `"45m"`. */
  function ParseSuffixed(p: string, unit: char): (r: Option<nat>)
    ensures r.Some? ==> 2 <= |p| && p[|p| - 1] == unit
  {
    if 2 <= |p| && p[|p| - 1] == unit then ParseNat(p[..|p| - 1]) else None
  }

  /** Reads `"<h>h <m>m"` or `"<m>m"` back into a count of minutes. */
  function ParseHoursMinutes(s: string): (r: Option<int>)
  {
    var parts := Split(s, ' ');
    if |parts| == 2 then
      var h, m := ParseSuffixed(parts[0], 'h'), ParseSuffixed(parts[1], 'm');
      if h.Some? && m.Some? then Some(60 * h.value + m.value) else None
    else if |parts| == 1 then
      var m := ParseSuffixed(parts[0], 'm');
      if m.Some? then Some(m.value) else None
    else None
  }

  /** A digit string never contains a separator or a unit letter. */
  lemma DigitsExclude(s: string, c: char)
    requires AllDigits(s)
    requires !IsDigit(c)
    ensures c !in s
  {
  }

  /** `"<n><unit>"` reads back as `n`. */
  lemma ReadSuffixed(n: nat, unit: char)
    ensures ParseSuffixed(NatToString(n) + [unit], unit) == Some(n)
  {
    var p := NatToString(n) + [unit];
    assert p[..|p| - 1] == NatToString(n);
  }

  /** `"<n><unit>"` holds no space and reads back as `n`. */
  lemma SuffixedReads(n: nat, unit: char)
    requires unit != ' '
    ensures ' ' !in NatToString(n) + [unit]
    ensures ParseSuffixed(NatToString(n) + [unit], unit) == Some(n)
  {
    DigitsExclude(NatToString(n), ' ');
    ReadSuffixed(n, unit);
  }

  /** Two space-free fields reading as hours and minutes read back as their total. */
  lemma ReadTwoSuffixed(a: string, b: string, h: nat, m: nat)
    requires ' ' !in a && ' ' !in b
    requires ParseSuffixed(a, 'h') == Some(h) && ParseSuffixed(b, 'm') == Some(m)
    ensures ParseHoursMinutes(a + [' '] + b) == Some(60 * h + m)
  {
    SplitTwo(a, b, ' ');
  }

  /** `"<m>m"` reads back as `m`. */
  lemma ReadMinutesOnly(m: nat)
    ensures ParseHoursMinutes(NatToString(m) + "m") == Some(m)
  {
    SuffixedReads(m, 'm');
    SplitWhole(NatToString(m) + "m", ' ');
  }

  /** `"<h>h <m>m"` reads back as `60 * h + m`. */
  lemma ReadHoursMinutes(h: nat, m: nat)
    ensures ParseHoursMinutes(NatToString(h) + "h " + NatToString(m) + "m") == Some(60 * h + m)
  {
    SuffixedReads(h, 'h');
    SuffixedReads(m, 'm');
    assert NatToString(h) + "h " + NatToString(m) + "m" == (NatToString(h) + "h") + [' '] + (NatToString(m) + "m");
    ReadTwoSuffixed(NatToString(h) + "h", NatToString(m) + "m", h, m);
  }

  /** The characters `String.prototype.trim` removes: ECMAScript white space and line terminators. */
  predicate IsJsWhitespace(c: char) {
    || c == ' ' || c == '\t' || c == '\n' || c == '\r'
    || c == '\U{000B}' || c == '\U{000C}' || c == '\U{00A0}' || c == '\U{1680}'
    || ('\U{2000}' <= c <= '\U{200A}')
    || c == '\U{2028}' || c == '\U{2029}' || c == '\U{202F}' || c == '\U{205F}'
    || c == '\U{3000}' || c == '\U{FEFF}'
  }

  /** Every character of `s` is white space (the empty string included). */
  predicate IsBlank(s: string) {
    forall i :: 0 <= i < |s| ==> IsJsWhitespace(s[i])
  }

  function TrimStart(s: string): (r: string)
    ensures |r| <= |s| && r == s[|s| - |r|..]
    ensures forall i :: 0 <= i < |s| - |r| ==> IsJsWhitespace(s[i])
    ensures |r| > 0 ==> !IsJsWhitespace(r[0])
  {
    if |s| > 0 && IsJsWhitespace(s[0]) then TrimStart(s[1..]) else s
  }

  function TrimEnd(s: string): (r: string)
    ensures |r| <= |s| && r == s[..|r|]
    ensures forall i :: |r| <= i < |s| ==> IsJsWhitespace(s[i])
    ensures |r| > 0 ==> !IsJsWhitespace(r[|r| - 1])
  {
    if |s| > 0 && IsJsWhitespace(s[|s| - 1]) then TrimEnd(s[..|s| - 1]) else s
  }

  /** JavaScript's `s.trim()`. */
  function Trim(s: string): (r: string)
    ensures r == "" <==> IsBlank(s)
    ensures |r| > 0 ==> !IsJsWhitespace(r[0]) && !IsJsWhitespace(r[|r| - 1])
  {
    TrimmedEmptyIffBlank(s);
    TrimEnd(TrimStart(s))
  }

  lemma TrimmedEmptyIffBlank(s: string)
    ensures TrimEnd(TrimStart(s)) == "" <==> IsBlank(s)
  {
    var t := TrimStart(s);
    if TrimEnd(t) == "" {
      assert |t| == 0;
    }
  }
}
