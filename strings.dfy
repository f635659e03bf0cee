/**
 * The few Python `str` operations the checker and the helpers rely on:
 * `strip`, `split`, `startswith`, `endswith`, `rfind`, `int` and `upper`.
 */
module Strings {
  import opened Wrappers

  /** Concatenation regroups freely; stated once so that long proofs need not rediscover it. */
  lemma AppendAssoc<T>(a: seq<T>, b: seq<T>, c: seq<T>)
    ensures (a + b) + c == a + (b + c)
  {
  }

  /** Python's `str.isspace` for one character: the ASCII separators and the Unicode spaces. */
  predicate IsSpace(c: char) {
    var n := c as int;
    || n == 32 || 9 <= n <= 13 || 28 <= n <= 31
    || n == 0x85 || n == 0xA0 || n == 0x1680 || 0x2000 <= n <= 0x200A
    || n == 0x2028 || n == 0x2029 || n == 0x202F || n == 0x205F || n == 0x3000
  }

  predicate AllSpace(s: string) {
    forall i | 0 <= i < |s| :: IsSpace(s[i])
  }

  lemma AllSpaceConcat(a: string, b: string)
    ensures AllSpace(a + b) <==> AllSpace(a) && AllSpace(b)
  {
    if AllSpace(a + b) {
      assert forall i | 0 <= i < |a| :: a[i] == (a + b)[i];
      assert forall i | 0 <= i < |b| :: b[i] == (a + b)[|a| + i];
    }
  }

  /** How many white-space characters `s` starts with. */
  function LeadingSpaces(s: string): (n: nat)
    ensures n <= |s|
  {
    if s != [] && IsSpace(s[0]) then 1 + LeadingSpaces(s[1..]) else 0
  }

  /** How many white-space characters `s` ends with. */
  function TrailingSpaces(s: string): (n: nat)
    ensures n <= |s|
  {
    if s != [] && IsSpace(s[|s| - 1]) then 1 + TrailingSpaces(s[..|s| - 1]) else 0
  }

  /** Python's `str.strip()`: the text between the leading and the trailing white space. */
  function Strip(s: string): string {
    var t := s[LeadingSpaces(s)..];
    t[..|t| - TrailingSpaces(t)]
  }

  lemma {:induction false} LeadingSpacesSpec(s: string)
    ensures AllSpace(s[..LeadingSpaces(s)])
    ensures LeadingSpaces(s) < |s| ==> !IsSpace(s[LeadingSpaces(s)])
  {
    if s != [] && IsSpace(s[0]) {
      LeadingSpacesSpec(s[1..]);
      assert s[..LeadingSpaces(s)] == [s[0]] + s[1..][..LeadingSpaces(s[1..])];
    }
  }

  lemma {:induction false} TrailingSpacesSpec(s: string)
    ensures AllSpace(s[|s| - TrailingSpaces(s)..])
    ensures TrailingSpaces(s) < |s| ==> !IsSpace(s[|s| - TrailingSpaces(s) - 1])
  {
    if s != [] && IsSpace(s[|s| - 1]) {
      var init := s[..|s| - 1];
      TrailingSpacesSpec(init);
      assert s[|s| - TrailingSpaces(s)..] == init[|init| - TrailingSpaces(init)..] + [s[|s| - 1]];
    }
  }

  /** A string strips to "" exactly when it is blank (Python: `not line.strip()`). */
  lemma StripBlank(s: string)
    ensures Strip(s) == "" <==> AllSpace(s)
  {
    var k := LeadingSpaces(s);
    var t := s[k..];
    LeadingSpacesSpec(s);
    TrailingSpacesSpec(t);
    assert s == s[..k] + t;
    AllSpaceConcat(s[..k], t);
    if Strip(s) == "" {
      assert t == t[|t| - TrailingSpaces(t)..];
    }
  }

  /** A stripped string neither starts nor ends with white space. */
  lemma StripEnds(s: string)
    ensures Strip(s) != "" ==> !IsSpace(Strip(s)[0]) && !IsSpace(Strip(s)[|Strip(s)| - 1])
  {
    var k := LeadingSpaces(s);
    var t := s[k..];
    LeadingSpacesSpec(s);
    TrailingSpacesSpec(t);
    if Strip(s) != "" {
      assert Strip(s)[0] == s[k];
    }
  }

  /** Stripping adds no character. */
  lemma StripKeeps(s: string, c: char)
    requires c !in s
    ensures c !in Strip(s)
  {
    var t := s[LeadingSpaces(s)..];
    assert c !in t;
  }

  lemma StripIdempotent(s: string)
    ensures Strip(Strip(s)) == Strip(s)
  {
    var r := Strip(s);
    StripEnds(s);
    if r != "" {
      assert LeadingSpaces(r) == 0;
      assert TrailingSpaces(r) == 0;
    }
  }

  /** A string with no white space at either end is its own strip. */
  lemma StripUnchanged(s: string)
    requires s != [] && !IsSpace(s[0]) && !IsSpace(s[|s| - 1])
    ensures Strip(s) == s
  {
    assert LeadingSpaces(s) == 0;
    assert s[0..] == s;
    assert TrailingSpaces(s) == 0;
  }

  predicate StartsWith(s: string, prefix: string) {
    |prefix| <= |s| && s[..|prefix|] == prefix
  }

  predicate EndsWith(s: string, suffix: string) {
    |suffix| <= |s| && s[|s| - |suffix|..] == suffix
  }

  /** Index of the first occurrence of `c` (Python's `s.index(c)`). */
  function IndexOf(s: string, c: char): (i: nat)
    requires c in s
    ensures i < |s| && s[i] == c && c !in s[..i]
  {
    if s[0] == c then 0
    else
      var j := IndexOf(s[1..], c);
      assert s[..j + 1] == [s[0]] + s[1..][..j];
      j + 1
  }

  /** Index of the last occurrence of `c`, or -1 (Python's `s.rfind(c)`). */
  function LastIndexOf(s: string, c: char): (i: int)
    ensures -1 <= i < |s|
    ensures i >= 0 ==> s[i] == c
    ensures forall k | i < k < |s| :: s[k] != c
  {
    if s == [] then -1
    else if s[|s| - 1] == c then |s| - 1
    else LastIndexOf(s[..|s| - 1], c)
  }

  /** Glues pieces back together with `c` between them (Python's `c.join(parts)`). */
  function Join(parts: seq<string>, c: char): string
    requires |parts| >= 1
  {
    if |parts| == 1 then parts[0] else parts[0] + [c] + Join(parts[1..], c)
  }

  /** Python's `s.split(c)` for a one-character separator: the pieces between the
      occurrences of `c`, none of which contains `c`, and which join back to `s`. */
  function Split(s: string, c: char): (parts: seq<string>)
    ensures |parts| >= 1
    ensures forall k | 0 <= k < |parts| :: c !in parts[k]
    ensures Join(parts, c) == s
    ensures |parts| == 1 <==> c !in s
    decreases |s|
  {
    if c !in s then [s]
    else
      var i := IndexOf(s, c);
      var rest := Split(s[i + 1..], c);
      var parts := [s[..i]] + rest;
      assert parts[1..] == rest;
      assert s == s[..i] + [c] + s[i + 1..];
      parts
  }

  /** `LastIndexOf` is the only index with its three properties. */
  lemma LastIndexOfUnique(s: string, c: char, j: int)
    requires -1 <= j < |s|
    requires j >= 0 ==> s[j] == c
    requires j == -1 ==> c !in s
    requires forall k | j < k < |s| :: s[k] != c
    ensures LastIndexOf(s, c) == j
  {
  }

  /** `IndexOf` is the only index with its properties. */
  lemma IndexOfUnique(s: string, c: char, j: nat)
    requires j < |s| && s[j] == c && c !in s[..j]
    ensures IndexOf(s, c) == j
  {
  }

  /** The last piece ends the joined string and, when there are several pieces, follows a
      separator. */
  lemma {:induction false} JoinEndsWithLast(parts: seq<string>, c: char)
    requires |parts| >= 1
    ensures var s, last := Join(parts, c), parts[|parts| - 1];
      EndsWith(s, last) && (|parts| > 1 ==> |last| < |s| && s[|s| - |last| - 1] == c)
  {
    if |parts| > 1 {
      var rest := parts[1..];
      JoinEndsWithLast(rest, c);
      assert rest[|rest| - 1] == parts[|parts| - 1];
    }
  }

  /** Python's `s.split(c)[-1]`: the text after the last `c`, or all of `s` when it has none. */
  function LastPiece(s: string, c: char): (last: string)
    ensures c !in last && EndsWith(s, last)
    ensures c !in s ==> last == s
    ensures c in s ==> |last| < |s| && s[|s| - |last| - 1] == c
  {
    var parts := Split(s, c);
    JoinEndsWithLast(parts, c);
    parts[|parts| - 1]
  }

  /** Splitting pieces that do not contain the separator, once joined, gives them back. */
  lemma {:induction false} SplitJoin(parts: seq<string>, c: char)
    requires |parts| >= 1
    requires forall k | 0 <= k < |parts| :: c !in parts[k]
    ensures Split(Join(parts, c), c) == parts
  {
    if |parts| > 1 {
      var rest := parts[1..];
      var s := Join(parts, c);
      assert s == parts[0] + [c] + Join(rest, c);
      assert s[..|parts[0]|] == parts[0];
      IndexOfUnique(s, c, |parts[0]|);
      assert s[|parts[0]| + 1..] == Join(rest, c);
      SplitJoin(rest, c);
    }
  }

  /** Python's `s.split(c, 1)`: splits at the first `c` only, so the second piece may
      still contain `c`. */
  function SplitOnce(s: string, c: char): (parts: seq<string>)
    ensures |parts| == if c in s then 2 else 1
  {
    if c !in s then [s] else var i := IndexOf(s, c); [s[..i], s[i + 1..]]
  }

  /** Without `c` the string is its own only piece; otherwise the first piece has no `c`
      and the pieces joined by `c` give the string back. */
  lemma SplitOnceSpec(s: string, c: char)
    ensures c !in s ==> SplitOnce(s, c) == [s]
    ensures c in s ==> c !in SplitOnce(s, c)[0] && SplitOnce(s, c)[0] + [c] + SplitOnce(s, c)[1] == s
  {
    if c in s {
      var i := IndexOf(s, c);
      assert s == s[..i] + [c] + s[i + 1..];
    }
  }

  predicate IsDigit(c: char) {
    '0' <= c <= '9'
  }

  predicate AllDigits(s: string) {
    forall i | 0 <= i < |s| :: IsDigit(s[i])
  }

  /** The value of a decimal numeral. */
  function DigitsValue(s: string): nat
    requires AllDigits(s)
  {
    if s == [] then 0 else 10 * DigitsValue(s[..|s| - 1]) + (s[|s| - 1] as int - '0' as int)
  }

  /**
   * Python's `int(s)` on an already stripped string: an optional `+` or `-` sign followed by
   * at least one ASCII digit; anything else is the `ValueError` case, here `None`.
   */
  function ParseInt(s: string): Option<int> {
    if |s| > 0 && (s[0] == '+' || s[0] == '-') then
      var digits := s[1..];
      if |digits| > 0 && AllDigits(digits) then
        var v: int := DigitsValue(digits);
        Some(if s[0] == '-' then -v else v)
      else None
    else if |s| > 0 && AllDigits(s) then Some(DigitsValue(s))
    else None
  }

  /** Python's `int(s)` on any string: surrounding white space is ignored. */
  function PyInt(s: string): Option<int> {
    ParseInt(Strip(s))
  }

  function DigitChar(d: nat): (c: char)
    requires d < 10
    ensures IsDigit(c) && c as int - '0' as int == d
  {
    ('0' as int + d) as char
  }

  /** Decimal rendering of a natural number, as Python's `str(n)`: digits only, no leading zero. */
  function NatToString(n: nat): (s: string)
    ensures |s| >= 1 && AllDigits(s)
    ensures |s| > 1 ==> s[0] != '0'
  {
    if n < 10 then [DigitChar(n)] else NatToString(n / 10) + [DigitChar(n % 10)]
  }

  lemma {:induction false} NatToStringValue(n: nat)
    ensures DigitsValue(NatToString(n)) == n
  {
    if n >= 10 {
      NatToStringValue(n / 10);
      var s := NatToString(n);
      assert s[..|s| - 1] == NatToString(n / 10);
    }
  }

  /** `int(str(n))`, `int("-" + str(n))` and `int("+" + str(n))` give back the number. */
  lemma ParseIntRoundTrip(n: nat)
    ensures ParseInt(NatToString(n)) == Some(n)
    ensures ParseInt("-" + NatToString(n)) == Some(-(n as int))
    ensures ParseInt("+" + NatToString(n)) == Some(n)
  {
    NatToStringValue(n);
    assert ("-" + NatToString(n))[1..] == NatToString(n);
    assert ("+" + NatToString(n))[1..] == NatToString(n);
  }

  /** Python's `str.upper()` on ASCII letters. */
  function UpperChar(c: char): char {
    if 'a' <= c <= 'z' then (c as int - 32) as char else c
  }

  predicate NoLowerCase(s: string) {
    forall i | 0 <= i < |s| :: !('a' <= s[i] <= 'z')
  }

  function Upper(s: string): (r: string)
    ensures |r| == |s|
  {
    if s == [] then [] else Upper(s[..|s| - 1]) + [UpperChar(s[|s| - 1])]
  }

  /** Each character is upper-cased in place, so no lower-case letter is left. */
  lemma {:induction false} UpperAt(s: string)
    ensures forall i | 0 <= i < |s| :: Upper(s)[i] == UpperChar(s[i])
    ensures NoLowerCase(Upper(s))
  {
    if s != [] {
      UpperAt(s[..|s| - 1]);
    }
  }

  /** Upper-casing leaves a string without lower-case letters as it is. */
  lemma UpperUnchanged(s: string)
    requires NoLowerCase(s)
    ensures Upper(s) == s
  {
    UpperAt(s);
  }

  /** Upper-casing neither adds nor removes a character that is not a lower-case letter. */
  lemma UpperKeeps(s: string, c: char)
    requires !('a' <= c <= 'z') && !('A' <= c <= 'Z')
    ensures c in Upper(s) <==> c in s
  {
    UpperAt(s);
    if c in s {
      var i :| 0 <= i < |s| && s[i] == c;
      assert Upper(s)[i] == c;
    }
    if c in Upper(s) {
      var i :| 0 <= i < |s| && Upper(s)[i] == c;
      assert s[i] == c;
    }
  }

  lemma StartsWithAppend(a: string, b: string, prefix: string)
    requires StartsWith(a, prefix)
    ensures StartsWith(a + b, prefix)
  {
    assert (a + b)[..|prefix|] == a[..|prefix|];
  }

  lemma EndsWithSeparated(a: string, sep: string, b: string)
    ensures EndsWith(a + sep + b, sep + b)
  {
    assert a + sep + b == a + (sep + b);
  }

  /** Upper-casing keeps a prefix a prefix and a suffix a suffix. */
  lemma UpperAffixes(s: string, prefix: string, suffix: string)
    requires StartsWith(s, prefix) && EndsWith(s, suffix)
    ensures StartsWith(Upper(s), Upper(prefix))
    ensures EndsWith(Upper(s), Upper(suffix))
  {
    var a, b := s[|prefix|..], s[..|s| - |suffix|];
    assert s == prefix + a;
    assert s == b + suffix;
    UpperConcat(prefix, a);
    UpperConcat(b, suffix);
    assert (Upper(prefix) + Upper(a))[..|prefix|] == Upper(prefix);
    assert (Upper(b) + Upper(suffix))[|b|..] == Upper(suffix);
  }

  lemma UpperConcat(a: string, b: string)
    ensures Upper(a + b) == Upper(a) + Upper(b)
  {
    UpperAt(a + b);
    UpperAt(a);
    UpperAt(b);
    assert forall i | 0 <= i < |a + b| :: Upper(a + b)[i] == (Upper(a) + Upper(b))[i];
  }
}
