/**
 * Character classes and string helpers shared by the mailbox client and the
 * signup driver: the optional-value type, Python truthiness of an optional
 * string, the character classes the extractor's patterns use, substring
 * search, whitespace stripping, ASCII lower-casing and decimal numerals.
 */
module Chars {

  datatype Option<+T> = None | Some(value: T)

  /** Python truthiness of a value that is either None or a string: None and "" are false. */
  predicate Truthy(o: Option<string>)
  {
    o.Some? && o.value != ""
  }

  // The classes compare code points, written in hexadecimal as the Unicode tables list them.

  predicate IsAsciiDigit(c: char) { 0x30 <= c as int <= 0x39 }

  predicate IsAsciiUpper(c: char) { 0x41 <= c as int <= 0x5A }

  predicate IsAsciiLower(c: char) { 0x61 <= c as int <= 0x7A }

  predicate IsAsciiLetter(c: char) { IsAsciiUpper(c) || IsAsciiLower(c) }

  /** The class `[A-Za-z0-9]` matched case-sensitively. */
  predicate IsAsciiAlnum(c: char) { IsAsciiDigit(c) || IsAsciiLetter(c) }

  /**
   * The class `[A-Za-z0-9]` matched with IGNORECASE: ASCII letters and digits,
   * and the four letters that case-insensitive matching reads as ASCII letters.
   */
  predicate IsCodeChar(c: char) { IsAsciiAlnum(FoldChar(c)) }

  /** The class `\d`: ASCII digits and the full-width digits U+FF10..U+FF19. */
  predicate IsDigit(c: char)
  {
    IsAsciiDigit(c) || 0xFF10 <= c as int <= 0xFF19
  }

  /**
   * The class `\w`: ASCII letters, digits and underscore, full-width letters
   * and digits, the CJK unified ideographs U+4E00..U+9FFF (so a code
   * directly followed by Chinese text has no word boundary after it), and the
   * letters U+0130, U+0131, U+017F and U+212A that fold onto ASCII letters.
   */
  predicate IsWordChar(c: char)
  {
    var n := c as int;
    IsAsciiAlnum(c) || n == 0x5F || IsDigit(c)
    || 0xFF21 <= n <= 0xFF3A || 0xFF41 <= n <= 0xFF5A
    || 0x4E00 <= n <= 0x9FFF
    || n == 0x130 || n == 0x131 || n == 0x17F || n == 0x212A
  }

  /** The class `\s`, which is also what `str.strip()` removes: the characters `str.isspace()` accepts. */
  predicate IsSpace(c: char)
  {
    var n := c as int;
    0x09 <= n <= 0x0D || 0x1C <= n <= 0x20 || n == 0x85 || n == 0xA0
    || n == 0x1680 || 0x2000 <= n <= 0x200A || n == 0x2028 || n == 0x2029
    || n == 0x202F || n == 0x205F || n == 0x3000
  }

  lemma ClassesNest(c: char)
    ensures IsCodeChar(c) ==> IsWordChar(c)
    ensures IsDigit(c) ==> IsWordChar(c)
    ensures IsSpace(c) ==> !IsWordChar(c)
  {
  }

  // ---------------------------------------------------------------------------
  // Substrings (Python's `sub in s`)

  predicate OccursAt(s: string, sub: string, i: nat)
  {
    i + |sub| <= |s| && s[i..i + |sub|] == sub
  }

  predicate Contains(s: string, sub: string)
  {
    exists i: nat :: i <= |s| && OccursAt(s, sub, i)
  }

  predicate ContainsAny(s: string, subs: seq<string>)
  {
    exists k :: 0 <= k < |subs| && Contains(s, subs[k])
  }

  /** The index of the first `c` in `s` at or after `i`, or `|s|` when there is none (Python's `s.find(c, i)`, with `|s|` for -1). */
  function IndexOf(s: string, c: char, i: nat): (k: nat)
    requires i <= |s|
    ensures i <= k <= |s|
    ensures k < |s| ==> s[k] == c
    ensures forall j :: i <= j < k ==> s[j] != c
    decreases |s| - i
  {
    if i == |s| || s[i] == c then i else IndexOf(s, c, i + 1)
  }

  // ---------------------------------------------------------------------------
  // Stripping (Python's `str.strip()` with no argument)

  /** Index of the first non-space character at or after `i`. */
  function SkipSpaces(s: string, i: nat): (a: nat)
    requires i <= |s|
    ensures i <= a <= |s|
    decreases |s| - i
  {
    if i < |s| && IsSpace(s[i]) then SkipSpaces(s, i + 1) else i
  }

  /** What `SkipSpaces` skips is whitespace, and it stops at the first character that is not. */
  lemma {:induction false} SkipSpacesSkips(s: string, i: nat)
    requires i <= |s|
    ensures forall k :: i <= k < SkipSpaces(s, i) ==> IsSpace(s[k])
    ensures SkipSpaces(s, i) < |s| ==> !IsSpace(s[SkipSpaces(s, i)])
    decreases |s| - i
  {
    if i < |s| && IsSpace(s[i]) {
      SkipSpacesSkips(s, i + 1);
    }
  }

  /** Index just past the last non-space character before `j`, not going below `a`. */
  function TrimEnd(s: string, a: nat, j: nat): (b: nat)
    requires a <= j <= |s|
    ensures a <= b <= j
    ensures forall k :: b <= k < j ==> IsSpace(s[k])
    ensures b > a ==> !IsSpace(s[b - 1])
    decreases j
  {
    if j > a && IsSpace(s[j - 1]) then TrimEnd(s, a, j - 1) else j
  }

  /** `s[a..b]` is `s` less a leading and a trailing run of whitespace. */
  predicate TrimmedTo(s: string, a: nat, b: nat)
  {
    a <= b <= |s| && (forall k :: 0 <= k < a ==> IsSpace(s[k])) && (forall k :: b <= k < |s| ==> IsSpace(s[k]))
  }

  /** `r` is `s` with only a leading and a trailing run of whitespace taken off. */
  ghost predicate IsTrimOf(s: string, r: string)
  {
    exists a: nat, b: nat :: TrimmedTo(s, a, b) && r == s[a..b]
  }

  /** `str.strip()`: the text without its leading and trailing whitespace. */
  function Strip(s: string): (r: string)
    ensures |r| <= |s|
    ensures r != "" ==> !IsSpace(r[0]) && !IsSpace(r[|r| - 1])
    ensures IsTrimOf(s, r)
  {
    var a := SkipSpaces(s, 0);
    SkipSpacesSkips(s, 0);
    s[a..TrimEnd(s, a, |s|)]
  }

  /** Stripping leaves nothing exactly when the string is all whitespace. */
  lemma StripEmpty(s: string)
    ensures Strip(s) == "" <==> forall k :: 0 <= k < |s| ==> IsSpace(s[k])
  {
    var a := SkipSpaces(s, 0);
    var b := TrimEnd(s, a, |s|);
    SkipSpacesSkips(s, 0);
    if Strip(s) == "" {
      assert a == b;
    }
  }

  lemma OccursInSlice(s: string, a: nat, b: nat, sub: string, i: nat)
    requires a <= b <= |s| && OccursAt(s[a..b], sub, i)
    ensures OccursAt(s, sub, a + i)
  {
    var r := s[a..b];
    assert forall k :: 0 <= k < |sub| ==> s[a + i + k] == r[i + k] == sub[k];
    assert s[a + i..a + i + |sub|] == sub;
  }

  lemma OccursInsideSlice(s: string, a: nat, b: nat, sub: string, i: nat)
    requires a <= i && i + |sub| <= b <= |s| && OccursAt(s, sub, i)
    ensures OccursAt(s[a..b], sub, i - a)
  {
    var r := s[a..b];
    assert forall k :: 0 <= k < |sub| ==> r[i - a + k] == s[i + k] == sub[k];
    assert r[i - a..i - a + |sub|] == sub;
  }

  /** An occurrence of a marker that begins and ends with non-space characters lies within the stripped part. */
  lemma MarkerWithinStrip(s: string, sub: string, i: nat)
    requires sub != [] && !IsSpace(sub[0]) && !IsSpace(sub[|sub| - 1])
    requires OccursAt(s, sub, i)
    ensures SkipSpaces(s, 0) <= i && i + |sub| <= TrimEnd(s, SkipSpaces(s, 0), |s|)
  {
    SkipSpacesSkips(s, 0);
    assert s[i] == sub[0] && s[i + |sub| - 1] == sub[|sub| - 1];
  }

  /** A marker made of non-space characters occurs in the stripped text exactly when it occurs in the text. */
  lemma StripKeepsMarker(s: string, sub: string)
    requires sub != []
    requires forall k :: 0 <= k < |sub| ==> !IsSpace(sub[k])
    ensures Contains(Strip(s), sub) <==> Contains(s, sub)
  {
    var a := SkipSpaces(s, 0);
    var b := TrimEnd(s, a, |s|);
    if Contains(Strip(s), sub) {
      var i: nat :| i <= b - a && OccursAt(s[a..b], sub, i);
      OccursInSlice(s, a, b, sub, i);
    }
    if Contains(s, sub) {
      var i: nat :| i <= |s| && OccursAt(s, sub, i);
      MarkerWithinStrip(s, sub, i);
      OccursInsideSlice(s, a, b, sub, i);
    }
  }

  // ---------------------------------------------------------------------------
  // Case

  /** Lower-cases ASCII letters and leaves every other character alone. */
  function LowerChar(c: char): char
  {
    if IsAsciiUpper(c) then (c as int + 0x20) as char else c
  }

  /**
   * How case-insensitive pattern matching sees a character: ASCII capitals as
   * their small letters; U+0130 and U+0131 as `i`, U+017F as `s` and U+212A
   * (KELVIN SIGN) as `k`, the non-ASCII letters Python's `re` folds onto ASCII
   * letters; every other character as itself.
   */
  function FoldChar(c: char): char
  {
    var n := c as int;
    if IsAsciiUpper(c) then (n + 0x20) as char
    else if n == 0x130 || n == 0x131 then 'i'
    else if n == 0x17F then 's'
    else if n == 0x212A then 'k'
    else c
  }

  /** `str.lower()` as far as ASCII letters go; see `LowerChar`. */
  function Lower(s: string): (r: string)
    ensures |r| == |s|
    ensures forall i :: 0 <= i < |s| ==> r[i] == LowerChar(s[i])
  {
    seq(|s|, i requires 0 <= i < |s| => LowerChar(s[i]))
  }

  /** Lower-casing changes no character into or out of whitespace. */
  lemma LowerKeepsSpaces(c: char)
    ensures IsSpace(LowerChar(c)) <==> IsSpace(c)
  {
  }

  lemma {:induction false} SkipSpacesLower(s: string, i: nat)
    requires i <= |s|
    ensures SkipSpaces(Lower(s), i) == SkipSpaces(s, i)
    decreases |s| - i
  {
    if i < |s| {
      LowerKeepsSpaces(s[i]);
      SkipSpacesLower(s, i + 1);
    }
  }

  lemma {:induction false} TrimEndLower(s: string, a: nat, j: nat)
    requires a <= j <= |s|
    ensures TrimEnd(Lower(s), a, j) == TrimEnd(s, a, j)
    decreases j
  {
    if j > a {
      LowerKeepsSpaces(s[j - 1]);
      TrimEndLower(s, a, j - 1);
    }
  }

  /** Stripping and lower-casing commute. */
  lemma LowerStrip(s: string)
    ensures Lower(Strip(s)) == Strip(Lower(s))
  {
    var a := SkipSpaces(s, 0);
    SkipSpacesLower(s, 0);
    TrimEndLower(s, a, |s|);
    var b := TrimEnd(s, a, |s|);
    assert Lower(s[a..b]) == Lower(s)[a..b];
  }

  // ---------------------------------------------------------------------------
  // Decimal numerals (Python's `str(n)`, `s.isdigit()` and `int(s)` on ASCII digits)

  predicate IsDecimal(s: string)
  {
    |s| > 0 && forall i :: 0 <= i < |s| ==> IsAsciiDigit(s[i])
  }

  function DigitChar(d: nat): (c: char)
    requires d < 10
    ensures IsAsciiDigit(c) && c as int - 0x30 == d
  {
    (d + 0x30) as char
  }

  function DigitValue(c: char): nat
    requires IsAsciiDigit(c)
  {
    c as int - 0x30
  }

  function DecimalString(n: nat): (s: string)
    ensures IsDecimal(s)
    ensures n < 10 <==> |s| == 1
  {
    if n < 10 then [DigitChar(n)] else DecimalString(n / 10) + [DigitChar(n % 10)]
  }

  function ParseDecimal(s: string): nat
    requires forall i :: 0 <= i < |s| ==> IsAsciiDigit(s[i])
  {
    if s == [] then 0 else 10 * ParseDecimal(s[..|s| - 1]) + DigitValue(s[|s| - 1])
  }

  /** Printing a number and parsing it back gives the number. */
  lemma {:induction false} ParseDecimalString(n: nat)
    ensures ParseDecimal(DecimalString(n)) == n
  {
    var s := DecimalString(n);
    if n >= 10 {
      assert s[..|s| - 1] == DecimalString(n / 10);
      ParseDecimalString(n / 10);
    }
  }

  function Pow10(k: nat): (p: nat)
    ensures p >= 1
  {
    if k == 0 then 1 else 10 * Pow10(k - 1)
  }

  /** For `k >= 1`, `str(n)` has more than `k` digits exactly when `n >= 10^k`. */
  lemma {:induction false} DecimalLength(n: nat, k: nat)
    requires k >= 1
    ensures |DecimalString(n)| > k <==> n >= Pow10(k)
  {
    if n >= 10 && k >= 2 {
      DecimalLength(n / 10, k - 1);
    }
  }

  /** Appending a digit multiplies the value by ten and adds the digit. */
  lemma ParseAppend(s: string, c: char)
    requires forall i :: 0 <= i < |s| ==> IsAsciiDigit(s[i])
    requires IsAsciiDigit(c)
    ensures ParseDecimal(s + [c]) == 10 * ParseDecimal(s) + DigitValue(c)
  {
    assert (s + [c])[..|s|] == s;
  }

  lemma {:induction false} MulAtLeast(d: nat, x: nat)
    requires x >= 1
    ensures d * x >= d
  {
    if x > 1 {
      MulAtLeast(d, x - 1);
      assert d * x == d * (x - 1) + d;
    }
  }

  /** Euclidean division is unique: a remainder in `[0, d)` is the remainder. */
  lemma ModUnique(n: int, d: int, a: int, b: int)
    requires d > 0 && 0 <= b < d && n == d * a + b
    ensures n % d == b
  {
    var a', b' := n / d, n % d;
    assert n == d * a' + b';
    assert d * (a - a') == d * a - d * a';
    if a > a' {
      MulAtLeast(d, a - a');
    } else if a < a' {
      MulAtLeast(d, a' - a);
    }
  }

  /** Dropping the last digit of `n` and reducing modulo `m`, then putting the digit back, reduces `n` modulo `10 * m`. */
  lemma ModTen(n: nat, m: nat)
    requires m >= 1
    ensures n % (10 * m) == 10 * ((n / 10) % m) + n % 10
  {
    var q := n / 10;
    var a := q / m;
    var b := q % m;
    assert q == m * a + b;
    assert n == 10 * q + n % 10;
    assert n == (10 * m) * a + (10 * b + n % 10);
    ModUnique(n, 10 * m, a, 10 * b + n % 10);
  }

  /** One digit more of the suffix: from `n / 10` modulo `10^(k-1)` to `n` modulo `10^k`. */
  lemma SuffixStep(n: nat, k: nat, t: string)
    requires k >= 1
    requires forall i :: 0 <= i < |t| ==> IsAsciiDigit(t[i])
    requires ParseDecimal(t) == (n / 10) % Pow10(k - 1)
    ensures ParseDecimal(t + [DigitChar(n % 10)]) == n % Pow10(k)
  {
    var m := Pow10(k - 1);
    ParseAppend(t, DigitChar(n % 10));
    ModTen(n, m);
  }

  /** The last `k` digits of `str(n)` read back as `n` modulo `10^k`. */
  lemma {:induction false} DecimalSuffix(n: nat, k: nat)
    requires k <= |DecimalString(n)|
    ensures var s := DecimalString(n); ParseDecimal(s[|s| - k..]) == n % Pow10(k)
  {
    var s := DecimalString(n);
    if k == 0 {
      assert s[|s|..] == [];
    } else if n < 10 {
      assert s[|s| - k..] == s;
      ParseDecimalString(n);
    } else {
      var h := DecimalString(n / 10);
      var c := DigitChar(n % 10);
      var t := h[|h| - (k - 1)..];
      assert s == h + [c];
      assert s[|s| - k..] == t + [c];
      DecimalSuffix(n / 10, k - 1);
      SuffixStep(n, k, t);
    }
  }
}
