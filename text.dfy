/**
 * Python string primitives the model relies on: the Unicode tables (as parameters),
 * `str.strip`, character filtering, `str(int)`, and the code-point order used by
 * `sorted` on strings.
 */
module Text {

  /**
   * The Unicode tables Python consults, taken as parameters rather than modelled:
   *   nfkd      unicodedata.normalize("NFKD", _)
   *   combining unicodedata.combining(c) != 0
   *   lower     str.lower (string to string: one character may lower to several)
   *   isSpace   the whitespace class, shared by `re`'s \s and by str.strip / str.isspace
   *   isWord    `re`'s \w
   *   isAlnum   str.isalnum on one character
   */
  datatype Unicode = Unicode(
    nfkd: string -> string,
    combining: char -> bool,
    lower: string -> string,
    isSpace: char -> bool,
    isWord: char -> bool,
    isAlnum: char -> bool)

  /** Drops leading whitespace. */
  function TrimStart(u: Unicode, s: string): (r: string)
    ensures |r| <= |s|
    ensures r == [] || !u.isSpace(r[0])
  {
    if |s| > 0 && u.isSpace(s[0]) then TrimStart(u, s[1..]) else s
  }

  /** What TrimStart drops is a run of whitespace at the front: the result is a suffix of s. */
  lemma {:induction false} TrimStartSuffix(u: Unicode, s: string)
    ensures TrimStart(u, s) == s[|s| - |TrimStart(u, s)|..]
    ensures forall k :: 0 <= k < |s| - |TrimStart(u, s)| ==> u.isSpace(s[k])
  {
    if |s| > 0 && u.isSpace(s[0]) {
      TrimStartSuffix(u, s[1..]);
      assert forall k :: 1 <= k < |s| ==> s[1..][k - 1] == s[k];
      assert s[1..][|s| - 1 - |TrimStart(u, s)|..] == s[|s| - |TrimStart(u, s)|..];
    }
  }

  /** Drops trailing whitespace. */
  function TrimEnd(u: Unicode, s: string): (r: string)
    ensures |r| <= |s|
    ensures r == [] || !u.isSpace(r[|r| - 1])
  {
    if |s| > 0 && u.isSpace(s[|s| - 1]) then TrimEnd(u, s[..|s| - 1]) else s
  }

  /** What TrimEnd drops is a run of whitespace at the back: the result is a prefix of s. */
  lemma {:induction false} TrimEndPrefix(u: Unicode, s: string)
    ensures TrimEnd(u, s) == s[..|TrimEnd(u, s)|]
    ensures forall k :: |TrimEnd(u, s)| <= k < |s| ==> u.isSpace(s[k])
  {
    if |s| > 0 && u.isSpace(s[|s| - 1]) {
      TrimEndPrefix(u, s[..|s| - 1]);
      assert forall k :: 0 <= k < |s| - 1 ==> s[..|s| - 1][k] == s[k];
      assert s[..|s| - 1][..|TrimEnd(u, s)|] == s[..|TrimEnd(u, s)|];
    }
  }

  /** Python's `s.strip()`. */
  function Strip(u: Unicode, s: string): (r: string)
    ensures |r| <= |s|
  {
    TrimEnd(u, TrimStart(u, s))
  }

  /** The stripped text neither starts nor ends with whitespace, and it is empty exactly when s is all whitespace. */
  lemma StripBlank(u: Unicode, s: string)
    ensures Strip(u, s) == [] || (!u.isSpace(Strip(u, s)[0]) && !u.isSpace(Strip(u, s)[|Strip(u, s)| - 1]))
    ensures Strip(u, s) == [] <==> forall k :: 0 <= k < |s| ==> u.isSpace(s[k])
  {
    var t := TrimStart(u, s);
    TrimStartSuffix(u, s);
    TrimEndPrefix(u, t);
    if Strip(u, s) == [] {
      assert t == [];
    } else {
      assert Strip(u, s)[0] == t[0];
    }
  }

  /** Stripping a stripped string changes nothing. */
  lemma StripIdempotent(u: Unicode, s: string)
    ensures Strip(u, Strip(u, s)) == Strip(u, s)
  {
    var r := Strip(u, s);
    StripBlank(u, s);
    assert TrimStart(u, r) == r;
    assert TrimEnd(u, r) == r;
  }

  /**
   * Python's `"".join(c for c in s if keep(c))`. A single character is kept exactly when
   * it is accepted; with `FilterAppend` this fixes the result: the accepted characters
   * of s, all of them, in order.
   */
  function Filter(s: string, keep: char -> bool): (r: string)
    ensures |r| <= |s|
    ensures forall k :: 0 <= k < |r| ==> keep(r[k])
    ensures (forall k :: 0 <= k < |s| ==> keep(s[k])) ==> r == s
    ensures |s| == 1 ==> r == if keep(s[0]) then s else []
  {
    if s == [] then []
    else if keep(s[0]) then [s[0]] + Filter(s[1..], keep)
    else Filter(s[1..], keep)
  }

  /** Filtering a concatenation filters each part and concatenates the results. */
  lemma {:induction false} FilterAppend(a: string, b: string, keep: char -> bool)
    ensures Filter(a + b, keep) == Filter(a, keep) + Filter(b, keep)
  {
    if a == [] {
      assert a + b == b;
    } else {
      assert (a + b)[0] == a[0] && (a + b)[1..] == a[1..] + b;
      FilterAppend(a[1..], b, keep);
    }
  }

  // ---------------------------------------------------------------------------
  // Code-point order on strings, as Python's `<` on `str`.

  /** `a < b` for Python strings: the first differing code point decides, and a proper prefix is smaller. */
  predicate LexLess(a: string, b: string) {
    if a == [] then b != []
    else if b == [] then false
    else if a[0] != b[0] then a[0] < b[0]
    else LexLess(a[1..], b[1..])
  }

  lemma {:induction false} LexLessIrreflexive(a: string)
    ensures !LexLess(a, a)
  {
    if a != [] {
      LexLessIrreflexive(a[1..]);
    }
  }

  lemma {:induction false} LexLessTransitive(a: string, b: string, c: string)
    requires LexLess(a, b) && LexLess(b, c)
    ensures LexLess(a, c)
  {
    if a != [] && b != [] && c != [] && a[0] == b[0] && b[0] == c[0] {
      LexLessTransitive(a[1..], b[1..], c[1..]);
    }
  }

  lemma {:induction false} LexLessTotal(a: string, b: string)
    requires a != b
    ensures LexLess(a, b) || LexLess(b, a)
  {
    if a != [] && b != [] && a[0] == b[0] {
      assert a == [a[0]] + a[1..] && b == [b[0]] + b[1..];
      LexLessTotal(a[1..], b[1..]);
    }
  }

  // ---------------------------------------------------------------------------
  // Python's str(n) for an int, and its inverse on digit strings.

  function DigitChar(d: nat): (c: char)
    requires d < 10
    ensures '0' <= c <= '9'
  {
    (d + '0' as int) as char
  }

  predicate IsDigits(s: string) {
    s != [] && forall k :: 0 <= k < |s| ==> '0' <= s[k] <= '9'
  }

  /** Decimal digits of n, most significant first, with no leading zero. */
  function NatToString(n: nat): (s: string)
    ensures IsDigits(s)
    ensures s[0] == '0' ==> n == 0
    decreases n
  {
    if n < 10 then [DigitChar(n)] else NatToString(n / 10) + [DigitChar(n % 10)]
  }

  /** Python's `str(n)`: a minus sign before the digits of |n| for a negative n. */
  function IntToString(n: int): (s: string)
    ensures n >= 0 ==> IsDigits(s)
    ensures n < 0 ==> |s| > 1 && s[0] == '-' && IsDigits(s[1..])
  {
    if n < 0 then "-" + NatToString(-n) else NatToString(n)
  }

  /** Reads a string of decimal digits back as a number. */
  function ParseDigits(s: string): nat
    requires IsDigits(s)
    decreases |s|
  {
    var d := (s[|s| - 1] as int) - ('0' as int);
    if |s| == 1 then d else 10 * ParseDigits(s[..|s| - 1]) + d
  }

  /** Reads Python's `str(n)` back. */
  function ParseInt(s: string): int
    requires IsDigits(s) || (s != [] && s[0] == '-' && IsDigits(s[1..]))
  {
    if s[0] == '-' then 0 - ParseDigits(s[1..]) as int else ParseDigits(s)
  }

  lemma {:induction false} ParseNatToString(n: nat)
    ensures ParseDigits(NatToString(n)) == n
    decreases n
  {
    if n >= 10 {
      var s := NatToString(n);
      assert s[..|s| - 1] == NatToString(n / 10);
      ParseNatToString(n / 10);
    }
  }

  /** `int(str(n)) == n`: the decimal text of an int determines it. */
  lemma ParseIntToString(n: int)
    ensures ParseInt(IntToString(n)) == n
  {
    if n < 0 {
      assert IntToString(n)[1..] == NatToString(-n);
      ParseNatToString(-n);
    } else {
      ParseNatToString(n);
    }
  }

  /** Position of the first occurrence of c in s, or |s| when c does not occur. */
  function IndexOf(s: string, c: char): (i: nat)
    ensures i <= |s|
    ensures forall k :: 0 <= k < i ==> s[k] != c
    ensures i < |s| ==> s[i] == c
  {
    if s == [] then 0 else if s[0] == c then 0 else 1 + IndexOf(s[1..], c)
  }

  lemma IndexOfAfter(a: string, c: char, b: string)
    requires c !in a
    ensures IndexOf(a + [c] + b, c) == |a|
  {
    var s := a + [c] + b;
    assert s[|a|] == c;
    assert forall k :: 0 <= k < |a| ==> s[k] == a[k];
  }
}
