/**
 * The pieces of the C string library the server relies on, stated over
 * Dafny strings: the text of a NUL-terminated buffer (what strlen, strcpy and
 * "%s" see), strcmp, strncmp, strstr, the truncation done by snprintf and the
 * decimal rendering of "%u".
 */
module CStrings {

  const NUL: char := '\0'

  /** The contents of a C string: the characters before its terminator. */
  type CString = s: string | NUL !in s

  function Min(a: nat, b: nat): nat {
    if a <= b then a else b
  }

  /** The text of a buffer read as a C string: everything before its first NUL. */
  function CStr(s: seq<char>): (r: CString)
    ensures r <= s
    ensures |r| < |s| ==> s[|r|] == NUL
  {
    if s == [] || s[0] == NUL then [] else [s[0]] + CStr(s[1..])
  }

  /** A NUL-free prefix of s that stops at a NUL or at the end of s is the C string of s. */
  lemma CStrUnique(s: seq<char>, t: seq<char>)
    requires t <= s && NUL !in t
    requires |t| < |s| ==> s[|t|] == NUL
    ensures CStr(s) == t
  {
  }

  /** A string without a NUL reads back as itself. */
  lemma CStrOfCString(s: seq<char>)
    requires NUL !in s
    ensures CStr(s) == s
  {
    CStrUnique(s, s);
  }

  /** Writing a terminator after a and anything behind it leaves the C string of a. */
  lemma CStrTerminated(a: seq<char>, b: seq<char>)
    ensures CStr(a + [NUL] + b) == CStr(a)
  {
    var s := a + [NUL] + b;
    var t := CStr(a);
    assert t <= s by {
      assert s[..|a|] == a;
    }
    if |t| < |a| {
      assert s[|t|] == a[|t|] == NUL;
    } else {
      assert s[|t|] == NUL;
    }
    CStrUnique(s, t);
  }

  /** The C string of a buffer holding a NUL: it ends before that NUL, at index |CStr(s)|. */
  lemma CStrTerminatorInside(s: seq<char>)
    requires NUL in s
    ensures |CStr(s)| < |s| && s[|CStr(s)|] == NUL
    ensures CStr(s) == s[..|CStr(s)|]
  {
  }

  /** The numeric value of the first character of a C string; the terminator reads as 0. */
  function FirstCode(s: CString): int {
    if s == [] then 0 else s[0] as int
  }

  /**
   * strcmp: compare character by character up to the first difference or
   * terminator, and return the difference of the two characters found there.
   */
  function Strcmp(a: CString, b: CString): (r: int)
    ensures r == 0 <==> a == b
    decreases |a|
  {
    if a == [] || b == [] || a[0] != b[0] then
      assert a != [] ==> a[0] != NUL;
      assert b != [] ==> b[0] != NUL;
      FirstCode(a) - FirstCode(b)
    else
      assert a == [a[0]] + a[1..] && b == [b[0]] + b[1..];
      Strcmp(a[1..], b[1..])
  }

  /** strncmp: strcmp restricted to the first n characters of each string. */
  function Strncmp(a: CString, b: CString, n: nat): (r: int)
    ensures r == 0 <==> a[..Min(n, |a|)] == b[..Min(n, |b|)]
  {
    Strcmp(a[..Min(n, |a|)], b[..Min(n, |b|)])
  }

  /**
   * A comparison bound that reaches past the literal's end includes the literal's
   * terminator, so strncmp(a, lit, n) == 0 only when a equals lit exactly.
   */
  lemma StrncmpExact(a: CString, lit: CString, n: nat)
    requires |lit| < n
    ensures Strncmp(a, lit, n) == 0 <==> a == lit
  {
  }

  /** A comparison bounded by the length of p tests whether p is a prefix of a. */
  lemma StrncmpPrefix(a: CString, p: CString)
    ensures Strncmp(a, p, |p|) == 0 <==> p <= a
    ensures Strncmp(p, a, |p|) == 0 <==> p <= a
  {
  }

  /** t occurs in s starting at index i. */
  predicate OccursAt(s: string, t: string, i: nat) {
    i + |t| <= |s| && s[i..i + |t|] == t
  }

  /**
   * strstr(s, t) != NULL: t occurs somewhere inside s. Only a needle no
   * longer than s can occur, and a prefix of s (the empty needle included)
   * always does.
   */
  predicate Contains(s: string, t: string)
    ensures Contains(s, t) ==> |t| <= |s|
    ensures t <= s ==> Contains(s, t)
  {
    assert t <= s ==> OccursAt(s, t, 0);
    exists i: nat | i <= |s| :: OccursAt(s, t, i)
  }

  /**
   * What snprintf leaves in a buffer of `size` bytes: the formatted text,
   * cut to its first size - 1 characters when it does not fit.
   */
  function Snprintf(s: string, size: nat): (r: string)
    requires size > 0
    ensures r <= s && |r| < size
    ensures |r| == Min(|s|, size - 1)
    ensures |s| < size ==> r == s
  {
    if |s| < size then s else s[..size - 1]
  }

  /** One decimal digit. */
  function DigitChar(d: nat): (c: char)
    requires d < 10
    ensures '0' <= c <= '9'
  {
    (48 + d) as char
  }

  /** The value of one decimal digit. */
  function DigitValue(c: char): (d: nat)
    requires '0' <= c <= '9'
    ensures d < 10
  {
    c as nat - 48
  }

  predicate IsDecimal(s: string) {
    |s| > 0 && forall i :: 0 <= i < |s| ==> '0' <= s[i] <= '9'
  }

  /** printf's "%u": the decimal digits of n, most significant first, without leading zeros. */
  function DecimalDigits(n: nat): (r: string)
    ensures IsDecimal(r)
    ensures r[0] == '0' ==> n == 0
    decreases n
  {
    if n < 10 then [DigitChar(n)] else DecimalDigits(n / 10) + [DigitChar(n % 10)]
  }

  /** Reads a string of decimal digits back as a number. */
  function DecimalValue(s: string): nat
    requires forall i :: 0 <= i < |s| ==> '0' <= s[i] <= '9'
  {
    if s == [] then 0 else 10 * DecimalValue(s[..|s| - 1]) + DigitValue(s[|s| - 1])
  }

  /** Reading the digits of "%u" gives back the number printed. */
  lemma {:induction false} DecimalRoundTrip(n: nat)
    ensures DecimalValue(DecimalDigits(n)) == n
    decreases n
  {
    var r := DecimalDigits(n);
    if n >= 10 {
      DecimalRoundTrip(n / 10);
      assert r[..|r| - 1] == DecimalDigits(n / 10);
    }
  }
}
