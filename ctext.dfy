/**
 * The C library behaviour the daemon relies on when it handles text: strings
 * that end at their first NUL, the gnulib character classes c_isspace and
 * c_isxdigit, strchr/strchrnul/strstr, and snprintf of a decimal "%d" into a
 * fixed buffer.
 */
module CText {
  import opened Outcome

  /** A C `int`. */
  newtype int32 = x: int | -0x8000_0000 <= x < 0x8000_0000

  /** c_isspace: space, horizontal tab, newline, vertical tab, form feed, carriage return. */
  predicate IsSpace(c: char) {
    c == ' ' || c == '\t' || c == '\n' || c == '\U{000B}' || c == '\U{000C}' || c == '\r'
  }

  /** c_isxdigit: an ASCII hexadecimal digit of either case. */
  predicate IsXDigit(c: char) {
    ('0' <= c <= '9') || ('a' <= c <= 'f') || ('A' <= c <= 'F')
  }

  predicate IsDigit(c: char) {
    '0' <= c <= '9'
  }

  /** The C string held in a buffer: everything before its first NUL. */
  function CStr(buf: string): (s: string)
    ensures '\0' !in s
    ensures s <= buf
    ensures |s| < |buf| ==> buf[|s|] == '\0'
  {
    if buf == [] || buf[0] == '\0' then [] else [buf[0]] + CStr(buf[1..])
  }

  /** The index of the first `c` in `t`, or `|t|` when there is none (strchrnul). */
  function IndexOf(t: string, c: char): (i: nat)
    ensures i <= |t|
  {
    if t == [] || t[0] == c then 0 else 1 + IndexOf(t[1..], c)
  }

  /** IndexOf finds the first `c`: none comes before it. */
  lemma {:induction false} IndexOfFirst(t: string, c: char)
    ensures forall k :: 0 <= k < IndexOf(t, c) ==> t[k] != c
    ensures IndexOf(t, c) < |t| ==> t[IndexOf(t, c)] == c
  {
    if t != [] && t[0] != c {
      IndexOfFirst(t[1..], c);
      assert forall k :: 1 <= k < IndexOf(t, c) ==> t[k] == t[1..][k - 1];
    }
  }

  /** The first index that satisfies IndexOf's contract is IndexOf. */
  lemma IndexOfIs(t: string, c: char, i: nat)
    requires i <= |t|
    requires forall k :: 0 <= k < i ==> t[k] != c
    requires i < |t| ==> t[i] == c
    ensures IndexOf(t, c) == i
  {
    IndexOfFirst(t, c);
  }

  /** The length of the longest prefix of `t` whose characters all satisfy `inClass` (strspn). */
  function Span(t: string, inClass: char -> bool): (n: nat)
    ensures n <= |t|
  {
    if t == [] || !inClass(t[0]) then 0 else 1 + Span(t[1..], inClass)
  }

  /** Span stops at the first character outside the class. */
  lemma {:induction false} SpanLongest(t: string, inClass: char -> bool)
    ensures forall k :: 0 <= k < Span(t, inClass) ==> inClass(t[k])
    ensures Span(t, inClass) < |t| ==> !inClass(t[Span(t, inClass)])
  {
    if t != [] && inClass(t[0]) {
      SpanLongest(t[1..], inClass);
      assert forall k :: 1 <= k < Span(t, inClass) ==> t[k] == t[1..][k - 1];
    }
  }

  lemma SpanIs(t: string, inClass: char -> bool, n: nat)
    requires n <= |t|
    requires forall k :: 0 <= k < n ==> inClass(t[k])
    requires n < |t| ==> !inClass(t[n])
    ensures Span(t, inClass) == n
  {
    SpanLongest(t, inClass);
  }

  /** The C string held in `t` ends at its first NUL, at `n`. */
  lemma {:induction false} CStrAt(t: string, n: nat)
    requires n < |t| && t[n] == '\0'
    requires forall k :: 0 <= k < n ==> t[k] != '\0'
    ensures CStr(t) == t[..n]
    decreases n
  {
    if n > 0 {
      CStrAt(t[1..], n - 1);
      assert t[..n] == [t[0]] + t[1..][..n - 1];
    }
  }

  /**
   * strchrnul over a NUL-terminated buffer: the first position from `from` on
   * that holds `c` or the terminating NUL.
   */
  method Strchrnul(buf: array<char>, from: nat, c: char) returns (i: nat)
    requires from < buf.Length && buf[buf.Length - 1] == '\0'
    ensures from <= i < buf.Length
    ensures buf[i] == c || buf[i] == '\0'
    ensures forall k :: from <= k < i ==> buf[k] != c && buf[k] != '\0'
  {
    i := from;
    while buf[i] != c && buf[i] != '\0'
      invariant from <= i < buf.Length
      invariant forall k :: from <= k < i ==> buf[k] != c && buf[k] != '\0'
      decreases buf.Length - i
    {
      i := i + 1;
    }
  }

  /** strlen over a NUL-terminated buffer: the position of its first NUL. */
  method Strlen(buf: array<char>) returns (n: nat)
    requires buf.Length > 0 && buf[buf.Length - 1] == '\0'
    ensures n < buf.Length && buf[n] == '\0'
    ensures forall k :: 0 <= k < n ==> buf[k] != '\0'
    ensures CStr(buf[..]) == buf[..n]
  {
    n := 0;
    while buf[n] != '\0'
      invariant n < buf.Length
      invariant forall k :: 0 <= k < n ==> buf[k] != '\0'
      decreases buf.Length - n
    {
      n := n + 1;
    }
    CStrAt(buf[..], n);
  }

  /** The output of a command as the daemon holds it: its text and a terminating NUL. */
  method OutputBuffer(s: string) returns (buf: array<char>)
    requires '\0' !in s
    ensures fresh(buf) && buf.Length == |s| + 1
    ensures buf[..|s|] == s && buf[|s|] == '\0' && buf[..] == s + ['\0']
  {
    buf := new char[|s| + 1](k => if 0 <= k < |s| then s[k] else '\0');
    assert buf[..|s|] == s;
    assert buf[..] == buf[..|s|] + [buf[|s|]];
  }

  /** `needle` occurs in `hay` starting at index `j`. */
  predicate OccursAt(hay: string, needle: string, j: nat) {
    j <= |hay| && needle <= hay[j..]
  }

  /** strstr: the index of the first occurrence of `needle` in `hay`, if any. */
  function Strstr(hay: string, needle: string): (r: Option<nat>)
    ensures r.Some? ==> OccursAt(hay, needle, r.value)
    ensures r.Some? ==> forall j :: 0 <= j < r.value ==> !OccursAt(hay, needle, j)
    ensures r.None? ==> forall j :: 0 <= j ==> !OccursAt(hay, needle, j)
    decreases |hay|
  {
    if needle <= hay then Some(0)
    else if hay == [] then None
    else
      var rest := Strstr(hay[1..], needle);
      assert forall j :: 1 <= j ==> OccursAt(hay, needle, j) == OccursAt(hay[1..], needle, j - 1) by {
        forall j | 1 <= j <= |hay| ensures hay[j..] == hay[1..][j - 1..] { }
      }
      match rest
      case None => None
      case Some(i) => Some(i + 1)
  }

  /** Characters of the decimal digit `d`. */
  function DigitChar(d: nat): (c: char)
    requires d < 10
    ensures IsDigit(c) && DigitValue(c) == d
  {
    (48 + d) as char
  }

  function DigitValue(c: char): (d: nat)
    requires IsDigit(c)
    ensures d < 10
  {
    (c as int) - 48
  }

  /** The decimal digits of `n`, without leading zeros. */
  function NatToDecimal(n: nat): (s: string)
    ensures |s| >= 1
    ensures forall k :: 0 <= k < |s| ==> IsDigit(s[k])
    ensures s[0] == '0' ==> n == 0
  {
    if n < 10 then [DigitChar(n)] else NatToDecimal(n / 10) + [DigitChar(n % 10)]
  }

  /** What snprintf's "%d" writes for `n`. */
  function FormatInt(n: int): (s: string)
    ensures |s| >= 1 && (s[0] == '-' <==> n < 0)
  {
    if n < 0 then "-" + NatToDecimal(-n) else NatToDecimal(n)
  }

  /** The number a string of decimal digits denotes. */
  function DecimalValue(s: string): nat
    requires forall k :: 0 <= k < |s| ==> IsDigit(s[k])
  {
    if s == [] then 0 else 10 * DecimalValue(s[..|s| - 1]) + DigitValue(s[|s| - 1])
  }

  /**
   * How a program reads a decimal argument back: an optional minus sign and
   * at least one digit, and nothing else.
   */
  function ParseInt(s: string): Option<int> {
    if s != [] && s[0] == '-' then
      var d := s[1..];
      if d != [] && forall k :: 0 <= k < |d| ==> IsDigit(d[k]) then
        var v: int := 0 - DecimalValue(d) as int;
        Some(v)
      else None
    else if s != [] && forall k :: 0 <= k < |s| ==> IsDigit(s[k]) then
      var v: int := DecimalValue(s);
      Some(v)
    else None
  }

  lemma {:induction false} DecimalRoundTrip(n: nat)
    ensures DecimalValue(NatToDecimal(n)) == n
    decreases n
  {
    if n >= 10 {
      DecimalRoundTrip(n / 10);
      var s := NatToDecimal(n);
      assert s[..|s| - 1] == NatToDecimal(n / 10);
    }
  }

  /** Reading back what "%d" wrote gives the number that was formatted. */
  lemma FormatIntRoundTrip(n: int)
    ensures ParseInt(FormatInt(n)) == Some(n)
  {
    if n < 0 {
      ParseNegative(NatToDecimal(-n), -n);
    } else {
      ParseNonNegative(NatToDecimal(n), n);
    }
  }

  lemma ParseNonNegative(d: string, n: nat)
    requires d == NatToDecimal(n)
    ensures ParseInt(d) == Some(n)
  {
    DecimalRoundTrip(n);
    assert d[0] != '-';
  }

  lemma ParseNegative(d: string, n: nat)
    requires d == NatToDecimal(n) && n > 0
    ensures ParseInt("-" + d) == Some(-(n as int))
  {
    DecimalRoundTrip(n);
    var t := "-" + d;
    assert t[0] == '-' && t[1..] == d;
  }

  lemma {:induction false} NatToDecimalLength(n: nat, digits: nat)
    requires n < Pow10(digits)
    ensures |NatToDecimal(n)| <= digits || (n == 0 && digits == 0)
    decreases n
  {
    if n >= 10 {
      NatToDecimalLength(n / 10, digits - 1);
    }
  }

  function Pow10(k: nat): (p: nat)
    ensures p >= 1
  {
    if k == 0 then 1 else 10 * Pow10(k - 1)
  }

  /** Every C `int` prints in at most 11 characters ("-2147483648"). */
  lemma FormatIntLength(n: int32)
    ensures |FormatInt(n as int)| <= 11
  {
    assert Pow10(10) == 10000000000;
    if n < 0 {
      NatToDecimalLength(-(n as int), 10);
    } else {
      NatToDecimalLength(n as int, 10);
    }
  }

  /** snprintf into a buffer of `size` bytes keeps at most `size - 1` characters. */
  function Snprintf(s: string, size: nat): (r: string)
    requires size > 0
    ensures r <= s && |r| < size
    ensures |s| < size ==> r == s
    ensures |s| >= size ==> |r| == size - 1
  {
    if |s| < size then s else s[..size - 1]
  }

  /** The daemon prints C `int`s into 32-byte buffers: they are never truncated. */
  lemma FormatIntFits(n: int32)
    ensures Snprintf(FormatInt(n as int), 32) == FormatInt(n as int)
  {
    FormatIntLength(n);
  }

  /** A C `int` as the daemon prints it, "%d" into a 32-byte buffer: it reads back as that number. */
  function DecimalArg(n: int32): (s: string)
    ensures s == FormatInt(n as int)
    ensures ParseInt(s) == Some(n as int)
  {
    FormatIntFits(n);
    FormatIntRoundTrip(n as int);
    Snprintf(FormatInt(n as int), 32)
  }
}
