/**
  The handful of ECMAScript string built-ins the adaptation layer relies on:
  `endsWith`, `indexOf`/`replace` with a string pattern, `split` on a
  one-character separator, `toLowerCase`, and the global `parseInt`.

  Strings are sequences of Unicode scalar values. Every pattern, separator
  and digit used here lies in the Basic Multilingual Plane and outside the
  surrogate range, so positions found on scalar values are exactly the
  positions JavaScript finds on UTF-16 code units.
*/
module JsString {
  import opened Results

  // ---------------------------------------------------------------------
  // endsWith, indexOf, replace(string, "")
  // ---------------------------------------------------------------------

  /** `s.endsWith(suffix)` */
  predicate EndsWith(s: string, suffix: string): (b: bool)
    ensures b ==> |suffix| <= |s|
    ensures |suffix| == 0 ==> b
  {
    |suffix| <= |s| && s[|s| - |suffix|..] == suffix
  }

  /** `endsWith` compares the suffix character by character against the end of the string. */
  lemma EndsWithPointwise(s: string, suffix: string)
    ensures EndsWith(s, suffix) <==>
              |suffix| <= |s| && forall i :: 0 <= i < |suffix| ==> s[|s| - |suffix| + i] == suffix[i]
  {
    if |suffix| <= |s| && forall i :: 0 <= i < |suffix| ==> s[|s| - |suffix| + i] == suffix[i] {
      assert s[|s| - |suffix|..] == suffix;
    }
  }

  /** A one-character suffix is a test of the last character; the empty string ends with none. */
  lemma EndsWithOneChar(s: string, c: char)
    ensures EndsWith(s, [c]) <==> |s| > 0 && s[|s| - 1] == c
  {
    if |s| > 0 {
      assert s[|s| - 1..] == [s[|s| - 1]];
    }
  }

  /** `pat` occurs in `s` starting at index `i`. */
  predicate OccursAt(s: string, pat: string, i: int) {
    0 <= i && i + |pat| <= |s| && s[i..i + |pat|] == pat
  }

  /** First occurrence of `pat` in `s` at or after `from`. */
  function IndexOfFrom(s: string, pat: string, from: nat): (r: Option<nat>)
    ensures r.Some? ==> from <= r.value && OccursAt(s, pat, r.value)
    ensures forall j :: from <= j && (r.None? || j < r.value) ==> !OccursAt(s, pat, j)
    decreases |s| - from
  {
    if from + |pat| > |s| then None
    else if s[from..from + |pat|] == pat then Some(from)
    else IndexOfFrom(s, pat, from + 1)
  }

  /** `s.indexOf(pat)`, with `None` for -1. */
  function IndexOf(s: string, pat: string): (r: Option<nat>)
    ensures r.Some? ==> OccursAt(s, pat, r.value)
    ensures r.Some? ==> forall j :: 0 <= j < r.value ==> !OccursAt(s, pat, j)
    ensures r.None? ==> forall j :: !OccursAt(s, pat, j)
  {
    IndexOfFrom(s, pat, 0)
  }

  /** Every character of a pattern that is found is a character of the string searched. */
  lemma FoundPatternChars(s: string, pat: string, c: char)
    ensures IndexOf(s, pat).Some? && c in pat ==> c in s
  {
    var r := IndexOf(s, pat);
    if r.Some? && c in pat {
      var k :| 0 <= k < |pat| && pat[k] == c;
      assert s[r.value + k] == s[r.value..r.value + |pat|][k];
    }
  }

  /**
    `s.replace(pat, "")`: a string pattern replaces only its FIRST
    occurrence, wherever it is, and leaves `s` alone when it is absent.
  */
  function RemoveFirst(s: string, pat: string): (r: string)
    ensures IndexOf(s, pat).None? ==> r == s
    ensures IndexOf(s, pat).Some? ==>
              var i := IndexOf(s, pat).value;
              |r| + |pat| == |s| && s == r[..i] + pat + r[i..]
  {
    match IndexOf(s, pat)
    case None => s
    case Some(i) =>
      var r := s[..i] + s[i + |pat|..];
      assert r[..i] == s[..i] && r[i..] == s[i + |pat|..];
      assert s == s[..i] + s[i..i + |pat|] + s[i + |pat|..];
      r
  }

  /** A pattern at the very start of `s` is the occurrence removed. */
  lemma RemoveFirstOfPrefix(pat: string, rest: string)
    ensures RemoveFirst(pat + rest, pat) == rest
  {
    var s := pat + rest;
    assert OccursAt(s, pat, 0) by { assert s[0..|pat|] == pat; }
    var r := IndexOf(s, pat);
    assert r.Some? && r.value == 0;
    assert s[|pat|..] == rest;
  }

  // ---------------------------------------------------------------------
  // split on a one-character separator
  // ---------------------------------------------------------------------

  /** Index of the first `c` in `s`. */
  function FirstIndexOfChar(s: string, c: char): (i: nat)
    requires c in s
    ensures i < |s| && s[i] == c && c !in s[..i]
  {
    if s[0] == c then 0
    else
      assert c in s[1..] by { assert s == [s[0]] + s[1..]; }
      var k := FirstIndexOfChar(s[1..], c);
      assert s[..k + 1] == [s[0]] + s[1..][..k];
      k + 1
  }

  /** `parts.join(sep)` */
  function Join(parts: seq<string>, sep: char): string
  {
    if |parts| == 0 then ""
    else if |parts| == 1 then parts[0]
    else parts[0] + [sep] + Join(parts[1..], sep)
  }

  /**
    `s.split(sep)`: always at least one token, no token holds the
    separator, and joining the tokens back gives `s`.
  */
  function Split(s: string, sep: char): (parts: seq<string>)
    ensures |parts| >= 1
    ensures forall i :: 0 <= i < |parts| ==> sep !in parts[i]
    decreases |s|
  {
    if sep !in s then [s]
    else
      var i := FirstIndexOfChar(s, sep);
      [s[..i]] + Split(s[i + 1..], sep)
  }

  /** Joining the tokens back gives the string that was split. */
  lemma {:induction false} JoinSplit(s: string, sep: char)
    ensures Join(Split(s, sep), sep) == s
    decreases |s|
  {
    if sep in s {
      var i := FirstIndexOfChar(s, sep);
      var rest := Split(s[i + 1..], sep);
      JoinSplit(s[i + 1..], sep);
      JoinCons(s[..i], rest, sep);
      assert s == s[..i] + [sep] + s[i + 1..];
    }
  }

  /** Joining a part in front of at least one other puts a separator between them. */
  lemma JoinCons(a: string, rest: seq<string>, sep: char)
    requires |rest| >= 1
    ensures Join([a] + rest, sep) == a + [sep] + Join(rest, sep)
  {
    assert ([a] + rest)[1..] == rest;
  }

  /** Splitting at the first separator peels off the text before it. */
  lemma SplitAtFirst(a: string, sep: char, b: string)
    requires sep !in a
    ensures Split(a + [sep] + b, sep) == [a] + Split(b, sep)
  {
    var s := a + [sep] + b;
    assert s[|a|] == sep;
    assert s[..|a|] == a;
    var i := FirstIndexOfChar(s, sep);
    assert i == |a|;
    assert s[i + 1..] == b;
  }

  /** `split` undoes `join` when no part holds the separator. */
  lemma {:induction false} SplitJoin(parts: seq<string>, sep: char)
    requires |parts| >= 1
    requires forall i :: 0 <= i < |parts| ==> sep !in parts[i]
    ensures Split(Join(parts, sep), sep) == parts
    decreases |parts|
  {
    if |parts| > 1 {
      var rest := parts[1..];
      assert Join(parts, sep) == parts[0] + [sep] + Join(rest, sep);
      SplitJoin(rest, sep);
      SplitAtFirst(parts[0], sep, Join(rest, sep));
      assert parts == [parts[0]] + rest;
    }
  }

  /**
    What `s.split(sep).pop()` returns: the longest suffix of `s` free of
    `sep`, which is either all of `s` or preceded by a `sep`.
  */
  predicate IsLastToken(s: string, sep: char, t: string) {
    && sep !in t
    && EndsWith(s, t)
    && (|t| < |s| ==> s[|s| - |t| - 1] == sep)
  }

  /** The last token of `s.split(sep)`, found from the end of `s`. */
  function LastToken(s: string, sep: char): (t: string)
    ensures IsLastToken(s, sep, t)
  {
    if |s| == 0 || s[|s| - 1] == sep then ""
    else
      var init := s[..|s| - 1];
      var t := LastToken(init, sep);
      var r := t + [s[|s| - 1]];
      assert s[|s| - |r|..] == r by {
        assert init[|init| - |t|..] == t;
        assert init[|init| - |t|..] + [s[|s| - 1]] == s[|s| - |t| - 1..];
      }
      assert |r| < |s| ==> s[|s| - |r| - 1] == sep by {
        if |r| < |s| {
          assert s[|s| - |r| - 1] == init[|init| - |t| - 1];
        }
      }
      r
  }

  /** A string has only one last token. */
  lemma LastTokenUnique(s: string, sep: char, t1: string, t2: string)
    requires IsLastToken(s, sep, t1) && IsLastToken(s, sep, t2)
    ensures t1 == t2
  {
  }

  /** `pop()` on a split gives the last token. */
  lemma {:induction false} LastTokenIsLastOfSplit(s: string, sep: char)
    ensures LastToken(s, sep) == Split(s, sep)[|Split(s, sep)| - 1]
  {
    var parts := Split(s, sep);
    var t := parts[|parts| - 1];
    assert IsLastToken(s, sep, t) by {
      JoinSplit(s, sep);
      JoinEndsWithLastPart(parts, sep);
    }
    LastTokenUnique(s, sep, t, LastToken(s, sep));
  }

  /** The last of separator-free parts is the last token of their join. */
  lemma {:induction false} JoinEndsWithLastPart(parts: seq<string>, sep: char)
    requires |parts| >= 1
    requires forall i :: 0 <= i < |parts| ==> sep !in parts[i]
    ensures IsLastToken(Join(parts, sep), sep, parts[|parts| - 1])
    decreases |parts|
  {
    if |parts| == 1 {
      assert parts[0][|parts[0]| - |parts[0]|..] == parts[0];
    } else {
      JoinEndsWithLastPart(parts[1..], sep);
      LastTokenAfterPrefix(parts[0], sep, Join(parts[1..], sep), parts[|parts| - 1]);
    }
  }

  /** A last token of `b` stays one after `a` and a separator are put in front. */
  lemma LastTokenAfterPrefix(a: string, sep: char, b: string, t: string)
    requires IsLastToken(b, sep, t)
    ensures IsLastToken(a + [sep] + b, sep, t)
  {
    var s := a + [sep] + b;
    assert s[|s| - |t|..] == b[|b| - |t|..];
    assert |t| < |b| ==> s[|s| - |t| - 1] == b[|b| - |t| - 1];
  }

  // ---------------------------------------------------------------------
  // toLowerCase
  // ---------------------------------------------------------------------

  /** Lower-case of one character: only A-Z are mapped. */
  function LowerAscii(c: char): char {
    if 'A' <= c <= 'Z' then (c as int + 32) as char else c
  }

  /** `s.toLowerCase()` restricted to ASCII letters. */
  function ToLowerCase(s: string): (r: string)
    ensures |r| == |s|
    ensures forall i :: 0 <= i < |s| ==> r[i] == LowerAscii(s[i])
  {
    seq(|s|, i requires 0 <= i < |s| => LowerAscii(s[i]))
  }

  /** Lower-casing is idempotent and empty only on the empty string. */
  lemma ToLowerCaseIdempotent(s: string)
    ensures ToLowerCase(ToLowerCase(s)) == ToLowerCase(s)
    ensures ToLowerCase(s) == "" <==> s == ""
  {
  }

  // ---------------------------------------------------------------------
  // parseInt
  // ---------------------------------------------------------------------

  /** `WhiteSpace` and `LineTerminator` of the ECMAScript grammar, which `parseInt` skips. */
  predicate IsJsWhiteSpace(c: char) {
    || c == '\t' || c == '\n' || c == '\U{000B}' || c == '\U{000C}' || c == '\r'
    || c == ' ' || c == '\U{00A0}' || c == '\U{1680}' || ('\U{2000}' <= c <= '\U{200A}')
    || c == '\U{2028}' || c == '\U{2029}' || c == '\U{202F}' || c == '\U{205F}'
    || c == '\U{3000}' || c == '\U{FEFF}'
  }

  /** `s` without its leading white space. */
  function TrimStart(s: string): (r: string)
    ensures EndsWith(s, r)
    ensures |r| > 0 ==> !IsJsWhiteSpace(r[0])
    ensures forall i :: 0 <= i < |s| - |r| ==> IsJsWhiteSpace(s[i])
  {
    if |s| > 0 && IsJsWhiteSpace(s[0]) then
      var r := TrimStart(s[1..]);
      assert s[1..][|s[1..]| - |r|..] == s[|s| - |r|..];
      assert forall i :: 1 <= i < |s| - |r| ==> s[i] == s[1..][i - 1];
      r
    else s
  }

  /** Value of a character as a digit of any radix up to 36; 36 when it is none. */
  function DigitValue(c: char): (d: nat)
    ensures d <= 36
  {
    if '0' <= c <= '9' then c as int - '0' as int
    else if 'a' <= c <= 'z' then c as int - 'a' as int + 10
    else if 'A' <= c <= 'Z' then c as int - 'A' as int + 10
    else 36
  }

  /** The longest prefix of `s` made of digits of `radix`. */
  function LeadingDigits(s: string, radix: nat): (r: string)
    ensures |r| <= |s| && r == s[..|r|]
    ensures forall i :: 0 <= i < |r| ==> DigitValue(r[i]) < radix
    ensures |r| < |s| ==> DigitValue(s[|r|]) >= radix
  {
    if |s| > 0 && DigitValue(s[0]) < radix then
      var r := [s[0]] + LeadingDigits(s[1..], radix);
      assert r == s[..|r|] by { assert s == [s[0]] + s[1..]; }
      r
    else ""
  }

  /** The number a digit string denotes in `radix`, most significant digit first. */
  function DigitsValue(ds: string, radix: nat): (v: int)
    ensures v >= 0
    decreases |ds|
  {
    if |ds| == 0 then 0
    else DigitsValue(ds[..|ds| - 1], radix) * radix + DigitValue(ds[|ds| - 1])
  }

  /** How `parseInt` was called: with radix 10, or with no radix. */
  datatype Radix = Ten | Unspecified

  /**
    The global `parseInt(s, 10)` / `parseInt(s)`; `None` stands for `NaN`.
    Leading white space is skipped, one sign is read, and without a radix a
    `0x`/`0X` prefix selects base 16; the longest run of digits that follows
    is read and the rest ignored.
  */
  function ParseInt(s: string, radix: Radix): (r: Option<int>)
    ensures r.Some? && r.value < 0 ==> |TrimStart(s)| > 0 && TrimStart(s)[0] == '-'
    ensures radix == Ten && |s| > 0 && IsDecimalDigit(s[0]) ==> r.Some? && r.value >= 0
  {
    var t := TrimStart(s);
    var sign := if |t| > 0 && t[0] == '-' then -1 else 1;
    var u := if |t| > 0 && (t[0] == '-' || t[0] == '+') then t[1..] else t;
    var hex := radix == Unspecified && |u| >= 2 && u[0] == '0' && (u[1] == 'x' || u[1] == 'X');
    var base := if hex then 16 else 10;
    var digits := LeadingDigits(if hex then u[2..] else u, base);
    assert radix == Ten && |s| > 0 && IsDecimalDigit(s[0]) ==> |digits| > 0 && sign == 1 by {
      if radix == Ten && |s| > 0 && IsDecimalDigit(s[0]) {
        TrimStartOfDigit(s);
      }
    }
    if |digits| == 0 then None else Some(sign * DigitsValue(digits, base))
  }

  /** A string that starts with a digit has no leading white space. */
  lemma TrimStartOfDigit(s: string)
    requires |s| > 0 && IsDecimalDigit(s[0])
    ensures TrimStart(s) == s
  {
    assert !IsJsWhiteSpace(s[0]);
  }

  /** `NaN` unless the first character after the white space is a sign or a decimal digit. */
  lemma ParseIntNeedsSignOrDigit(s: string, radix: Radix)
    ensures ParseInt(s, radix).Some? ==>
              var t := TrimStart(s);
              |t| > 0 && (t[0] == '-' || t[0] == '+' || IsDecimalDigit(t[0]))
  {
  }

  // ---------------------------------------------------------------------
  // Template-literal rendering of a natural number
  // ---------------------------------------------------------------------

  predicate IsDecimalDigit(c: char) {
    '0' <= c <= '9'
  }

  function DecimalDigit(d: nat): (c: char)
    requires d < 10
    ensures IsDecimalDigit(c) && DigitValue(c) == d
  {
    (d + '0' as int) as char
  }

  /** `${n}` for a non-negative integer: decimal digits, no leading zero. */
  function NatToString(n: nat): (s: string)
    ensures |s| >= 1
    ensures forall i :: 0 <= i < |s| ==> IsDecimalDigit(s[i])
    ensures |s| > 1 ==> s[0] != '0'
    decreases n
  {
    if n < 10 then [DecimalDigit(n)] else NatToString(n / 10) + [DecimalDigit(n % 10)]
  }

  lemma {:induction false} DigitsValueOfNatToString(n: nat)
    ensures DigitsValue(NatToString(n), 10) == n
    decreases n
  {
    var s := NatToString(n);
    if n >= 10 {
      DigitsValueOfNatToString(n / 10);
      assert s[..|s| - 1] == NatToString(n / 10);
    }
  }

  lemma {:induction false} LeadingDigitsOfDecimal(s: string)
    requires forall i :: 0 <= i < |s| ==> IsDecimalDigit(s[i])
    ensures LeadingDigits(s, 10) == s
    decreases |s|
  {
    if |s| > 0 {
      LeadingDigitsOfDecimal(s[1..]);
    }
  }

  /** `parseInt` reads back the number a template literal wrote, with or without a radix. */
  lemma {:induction false} ParseIntOfNatToString(n: nat)
    ensures ParseInt(NatToString(n), Ten) == Some(n)
    ensures ParseInt(NatToString(n), Unspecified) == Some(n)
  {
    var s := NatToString(n);
    assert !IsJsWhiteSpace(s[0]);
    assert TrimStart(s) == s;
    LeadingDigitsOfDecimal(s);
    DigitsValueOfNatToString(n);
    assert |s| >= 2 ==> s[0] != '0';
  }

  /** A decimal rendering contains no character other than a digit. */
  lemma NatToStringExcludes(n: nat, c: char)
    requires !IsDecimalDigit(c)
    ensures c !in NatToString(n)
  {
    var digits := NatToString(n);
    forall i | 0 <= i < |digits|
      ensures digits[i] != c
    {
      assert IsDecimalDigit(digits[i]);
    }
  }

  /** Distinct numbers render as distinct strings. */
  lemma NatToStringInjective(m: nat, n: nat)
    requires NatToString(m) == NatToString(n)
    ensures m == n
  {
    ParseIntOfNatToString(m);
    ParseIntOfNatToString(n);
  }

  // ---------------------------------------------------------------------
  // UTF-8, as `new File([text])` stores a string
  // ---------------------------------------------------------------------

  /** The UTF-8 bytes of one Unicode scalar value: one to four bytes, one for ASCII. */
  function Utf8Char(c: char): (b: seq<bv8>)
    ensures 1 <= |b| <= 4
    ensures c < '\U{0080}' ==> b == [c as int as bv8]
  {
    var n := c as int;
    if n < 0x80 then [n as bv8]
    else if n < 0x800 then [(0xC0 + n / 0x40) as bv8, (0x80 + n % 0x40) as bv8]
    else if n < 0x1_0000 then
      [(0xE0 + n / 0x1000) as bv8, (0x80 + n / 0x40 % 0x40) as bv8, (0x80 + n % 0x40) as bv8]
    else
      [(0xF0 + n / 0x4_0000) as bv8, (0x80 + n / 0x1000 % 0x40) as bv8,
       (0x80 + n / 0x40 % 0x40) as bv8, (0x80 + n % 0x40) as bv8]
  }

  /** The UTF-8 encoding of a string: one to four bytes per character. */
  function Utf8(s: string): (b: seq<bv8>)
    ensures |s| <= |b| <= 4 * |s|
  {
    if |s| == 0 then [] else Utf8Char(s[0]) + Utf8(s[1..])
  }

  /** An ASCII string encodes byte for byte. */
  lemma {:induction false} Utf8OfAscii(s: string)
    requires forall i :: 0 <= i < |s| ==> s[i] < '\U{0080}'
    ensures |Utf8(s)| == |s|
    ensures forall i :: 0 <= i < |s| ==> Utf8(s)[i] == s[i] as int as bv8
  {
    if |s| > 0 {
      var t := Utf8(s[1..]);
      Utf8OfAscii(s[1..]);
      assert Utf8(s) == Utf8Char(s[0]) + t;
      forall i | 1 <= i < |s|
        ensures Utf8(s)[i] == s[i] as int as bv8
      {
        assert Utf8(s)[i] == t[i - 1] && s[1..][i - 1] == s[i];
      }
    }
  }
}
