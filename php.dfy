/**
 * The pieces of PHP's run-time semantics that the plugin's filtering rules
 * depend on: `empty()`, string truthiness, `explode`/`implode`, the `(int)`
 * cast of a string, integer-to-string conversion, `json_encode` of a string,
 * and substring search (what `LIKE '%x%'` means for a pattern without
 * wildcards).
 */
module Php {

  /** A filter value as the form hands it over: null, a string, or a list of strings. */
  datatype Value = Null | Str(s: string) | Arr(items: seq<string>)

  /** PHP `empty()`: null, '', '0' and the empty array are empty. */
  predicate IsEmpty(v: Value) {
    match v
    case Null => true
    case Str(s) => s == "" || s == "0"
    case Arr(xs) => xs == []
  }

  /** Truthiness of a PHP string in an `if`: everything but '' and '0'. */
  predicate IsTruthy(s: string) {
    s != "" && s != "0"
  }

  // ---------------------------------------------------------------------------
  // explode / implode with a one-character separator
  // ---------------------------------------------------------------------------

  /** Number of occurrences of `c` in `s`. */
  function Occurrences(c: char, s: string): nat {
    if s == [] then 0 else (if s[0] == c then 1 else 0) + Occurrences(c, s[1..])
  }

  /**
   * PHP `explode(sep, s)`: the pieces between separators. There is one piece
   * more than there are separators (so `explode(',', '')` is `['']`), and no
   * piece contains the separator.
   */
  function Explode(sep: char, s: string): (parts: seq<string>)
    ensures |parts| == Occurrences(sep, s) + 1
    ensures forall k :: 0 <= k < |parts| ==> sep !in parts[k]
    decreases |s|
  {
    if s == [] then [""]
    else if s[0] == sep then [""] + Explode(sep, s[1..])
    else
      var rest := Explode(sep, s[1..]);
      [[s[0]] + rest[0]] + rest[1..]
  }

  /** PHP `implode(sep, parts)`. */
  function Implode(sep: char, parts: seq<string>): string {
    if parts == [] then ""
    else if |parts| == 1 then parts[0]
    else parts[0] + [sep] + Implode(sep, parts[1..])
  }

  /** Joining the pieces of `explode` with the same separator gives the string back. */
  lemma {:induction false} ImplodeExplode(sep: char, s: string)
    ensures Implode(sep, Explode(sep, s)) == s
    decreases |s|
  {
    if s == [] {
    } else if s[0] == sep {
      ImplodeExplode(sep, s[1..]);
      assert s == [sep] + s[1..];
    } else {
      var rest := Explode(sep, s[1..]);
      ImplodeExplode(sep, s[1..]);
      if |rest| == 1 {
        assert Explode(sep, s) == [[s[0]] + rest[0]];
        assert s == [s[0]] + s[1..];
      } else {
        assert Explode(sep, s)[1..] == rest[1..];
        assert Implode(sep, rest) == rest[0] + [sep] + Implode(sep, rest[1..]);
        assert s == [s[0]] + s[1..];
      }
    }
  }

  /** Splitting an `implode` of separator-free pieces gives the pieces back. */
  lemma {:induction false} ExplodeImplode(sep: char, parts: seq<string>)
    requires |parts| >= 1
    requires forall k :: 0 <= k < |parts| ==> sep !in parts[k]
    ensures Explode(sep, Implode(sep, parts)) == parts
    decreases |parts|, |parts[0]|
  {
    var p := parts[0];
    if p == [] {
      if |parts| == 1 {
      } else {
        ExplodeImplode(sep, parts[1..]);
        assert Implode(sep, parts) == [sep] + Implode(sep, parts[1..]);
        assert ([sep] + Implode(sep, parts[1..]))[1..] == Implode(sep, parts[1..]);
      }
    } else {
      var parts' := [p[1..]] + parts[1..];
      assert sep !in p[1..] by {
        forall k | 0 <= k < |p[1..]| ensures p[1..][k] != sep {
          assert p[1..][k] == p[k + 1];
        }
      }
      ExplodeImplode(sep, parts');
      assert Implode(sep, parts) == [p[0]] + Implode(sep, parts') by {
        if |parts| == 1 {
          assert p == [p[0]] + p[1..];
        } else {
          assert parts'[1..] == parts[1..];
          assert p == [p[0]] + p[1..];
        }
      }
      var s := Implode(sep, parts);
      assert s[0] == p[0] && p[0] != sep;
      assert s[1..] == Implode(sep, parts');
      assert [p[0]] + p[1..] == p;
    }
  }

  // ---------------------------------------------------------------------------
  // Decimal digits, the (int) cast of a string and integer-to-string conversion
  // ---------------------------------------------------------------------------

  predicate IsDigit(c: char) {
    '0' <= c <= '9'
  }

  predicate AllDigits(s: string) {
    forall k :: 0 <= k < |s| ==> IsDigit(s[k])
  }

  /** The characters PHP skips before a numeric prefix. */
  const Blanks: set<char> := {' ', '\t', '\n', '\r', '\U{B}', '\U{C}'}

  function DigitChar(k: nat): (c: char)
    requires k < 10
    ensures IsDigit(c)
  {
    ('0' as int + k) as char
  }

  /** The value of a string of decimal digits (0 for the empty string). */
  function DigitsValue(d: string): nat
    requires AllDigits(d)
  {
    if d == [] then 0
    else DigitsValue(d[..|d| - 1]) * 10 + (d[|d| - 1] as int - '0' as int)
  }

  /** The longest prefix of `s` made of decimal digits. */
  function LeadingDigits(s: string): (d: string)
    ensures |d| <= |s| && d == s[..|d|]
    ensures AllDigits(d)
    ensures |d| < |s| ==> !IsDigit(s[|d|])
  {
    if s != [] && IsDigit(s[0]) then [s[0]] + LeadingDigits(s[1..]) else ""
  }

  /** `m * 10^k`. */
  function ScaleUp(m: nat, k: nat): nat {
    if k == 0 then m else 10 * ScaleUp(m, k - 1)
  }

  /** `m / 10^k`, truncated. */
  function ScaleDown(m: nat, k: nat): nat {
    if k == 0 then m else ScaleDown(m / 10, k - 1)
  }

  /**
   * The exponent at the head of `s`: `e` or `E`, an optional sign and at
   * least one digit; 0 when `s` does not start with one.
   */
  function Exponent(s: string): int {
    if s == [] || (s[0] != 'e' && s[0] != 'E') then 0
    else
      var t := s[1..];
      if t != [] && (t[0] == '-' || t[0] == '+') then
        var d := LeadingDigits(t[1..]);
        if d == "" then 0 else if t[0] == '-' then 0 - DigitsValue(d) as int else DigitsValue(d)
      else DigitsValue(LeadingDigits(t))
  }

  /** The parts of the unsigned number at the head of a string. */
  datatype Numeral = Numeral(whole: string, fraction: string, exponent: int)

  /** The fraction digits when `rest` starts with a point, else none. */
  function FractionOf(rest: string): (f: string)
    ensures AllDigits(f) && |f| < |rest| + 1
  {
    if rest != [] && rest[0] == '.' then LeadingDigits(rest[1..]) else ""
  }

  /** What follows the point and the fraction digits. */
  function AfterFraction(rest: string): string {
    if rest != [] && rest[0] == '.' then rest[1 + |FractionOf(rest)|..] else rest
  }

  /**
   * The integer digits, the fraction digits after an optional point, and
   * the exponent at the head of `t`; a prefix without any digit carries no
   * exponent.
   */
  function ParseNumeral(t: string): (n: Numeral)
    ensures n.whole == LeadingDigits(t) && AllDigits(n.fraction) && AllDigits(n.whole + n.fraction)
  {
    var whole := LeadingDigits(t);
    var rest := t[|whole|..];
    var fraction := FractionOf(rest);
    AllDigitsConcat(whole, fraction);
    Numeral(whole, fraction, if whole == "" && fraction == "" then 0 else Exponent(AfterFraction(rest)))
  }

  lemma AllDigitsConcat(a: string, b: string)
    requires AllDigits(a) && AllDigits(b)
    ensures AllDigits(a + b)
  {
    assert forall k :: 0 <= k < |a + b| ==> (a + b)[k] == if k < |a| then a[k] else b[k - |a|];
  }

  /** The value a numeral denotes, truncated toward zero. */
  function Magnitude(n: Numeral): nat
    requires AllDigits(n.whole + n.fraction)
  {
    var m := DigitsValue(n.whole + n.fraction);
    var shift := n.exponent - |n.fraction|;
    if shift >= 0 then ScaleUp(m, shift) else ScaleDown(m, -shift)
  }

  /**
   * The magnitude of the unsigned number at the head of `t`: integer digits,
   * then optionally `.` and fraction digits, then optionally an exponent,
   * truncated toward zero.
   */
  function UnsignedValue(t: string): nat {
    Magnitude(ParseNumeral(t))
  }

  /**
   * PHP's `(int)` cast of a string: leading white space is skipped, then an
   * optional sign and the longest numeric prefix (digits, fraction and
   * exponent) is read and truncated toward zero; a string with no numeric
   * prefix gives 0.
   */
  function IntCast(s: string): int {
    var t := TrimLeft(s, Blanks);
    if t != [] && t[0] == '-' then 0 - UnsignedValue(t[1..]) as int
    else if t != [] && t[0] == '+' then UnsignedValue(t[1..])
    else UnsignedValue(t)
  }

  /** A string of decimal digits casts to the number it denotes. */
  lemma IntCastOfDigits(s: string)
    requires AllDigits(s)
    ensures IntCast(s) == DigitsValue(s)
  {
    if s != [] {
      assert IsDigit(s[0]);
      IntCastOfUnsigned(s);
    }
    UnsignedValueOfDigits(s);
  }

  lemma UnsignedValueOfDigits(t: string)
    requires AllDigits(t)
    ensures UnsignedValue(t) == DigitsValue(t)
  {
    LeadingDigitsOfDigits(t);
    assert t[|t|..] == "";
    assert ParseNumeral(t) == Numeral(t, "", 0);
    MagnitudeOfWhole(t, 0);
  }

  /**
   * A string whose first non-blank character is not a digit, a point or a
   * sign has no numeric prefix and casts to 0.
   */
  lemma IntCastWithoutNumber(s: string)
    requires var t := TrimLeft(s, Blanks);
             t == [] || (!IsDigit(t[0]) && t[0] != '.' && t[0] != '-' && t[0] != '+')
    ensures IntCast(s) == 0
  {
    var t := TrimLeft(s, Blanks);
    assert IntCast(s) == UnsignedValue(t);
    UnsignedValueWithoutNumber(t);
  }

  lemma UnsignedValueWithoutNumber(t: string)
    requires t == [] || (!IsDigit(t[0]) && t[0] != '.')
    ensures UnsignedValue(t) == 0
  {
    var n := ParseNumeral(t);
    assert n.whole == "" && n.fraction == "" && n.exponent == 0;
    assert n.whole + n.fraction == "";
  }

  /** `ArrayHelper::toInteger`: the `(int)` cast of every element. */
  function ToInteger(xs: seq<string>): (r: seq<int>)
    ensures |r| == |xs| && forall k :: 0 <= k < |xs| ==> r[k] == IntCast(xs[k])
  {
    seq(|xs|, k requires 0 <= k < |xs| => IntCast(xs[k]))
  }

  /**
   * The decimal rendering of a natural number: digits only, no leading zero,
   * and its digits denote `n`.
   */
  function NatToDecimal(n: nat): (d: string)
    ensures |d| >= 1 && AllDigits(d)
    ensures n > 0 ==> d[0] != '0'
    ensures DigitsValue(d) == n
  {
    if n < 10 then [DigitChar(n)]
    else
      var prefix := NatToDecimal(n / 10);
      var d := prefix + [DigitChar(n % 10)];
      assert d[..|d| - 1] == prefix;
      d
  }

  /** PHP's string conversion of an integer (`(string)$i`, `'x' . $i`). */
  function IntToString(i: int): string {
    if i < 0 then "-" + NatToDecimal(-i) else NatToDecimal(i)
  }

  lemma LeadingDigitsOfDigits(d: string)
    requires AllDigits(d)
    ensures LeadingDigits(d) == d
  {
  }

  /** Casting the string form of an integer back with `(int)` gives the integer. */
  lemma IntCastOfIntToString(i: int)
    ensures IntCast(IntToString(i)) == i
  {
    var d := NatToDecimal(if i < 0 then -i else i);
    if i < 0 {
      IntCastOfNegated(d);
      UnsignedValueOfDigits(d);
    } else {
      IntCastOfDigits(d);
    }
  }

  /** A leading minus sign negates the magnitude of what follows it. */
  lemma IntCastOfNegated(t: string)
    ensures IntCast("-" + t) == 0 - UnsignedValue(t)
  {
    var s := "-" + t;
    assert s[0] == '-' && '-' !in Blanks;
    assert TrimLeft(s, Blanks) == s;
    assert s[1..] == t;
  }

  /** A number in scientific notation: `(int)"<digits>e<digits>"` scales by the power of ten. */
  lemma IntCastScientific(d: string, x: string)
    requires d != [] && AllDigits(d) && x != [] && AllDigits(x)
    ensures IntCast(d + "e" + x) == ScaleUp(DigitsValue(d), DigitsValue(x))
  {
    var s := d + "e" + x;
    assert s != [] && IsDigit(s[0]) by {
      assert s[0] == d[0];
    }
    IntCastOfUnsigned(s);
    ParseScientific(d, x);
    MagnitudeOfWhole(d, DigitsValue(x));
  }

  /** A string that starts with a digit casts to the magnitude of its numeral. */
  lemma IntCastOfUnsigned(s: string)
    requires s != [] && IsDigit(s[0])
    ensures IntCast(s) == Magnitude(ParseNumeral(s))
  {
    assert TrimLeft(s, Blanks) == s;
  }

  /** `<digits>e<digits>` parses as the integer digits with the exponent and no fraction. */
  lemma ParseScientific(d: string, x: string)
    requires d != [] && AllDigits(d) && x != [] && AllDigits(x)
    ensures ParseNumeral(d + "e" + x) == Numeral(d, "", DigitsValue(x))
  {
    WholeOfScientific(d, x);
    ExponentOfDigits(x);
  }

  /** The integer digits of `<digits>e<digits>` stop at the `e`. */
  lemma WholeOfScientific(d: string, x: string)
    requires AllDigits(d)
    ensures LeadingDigits(d + "e" + x) == d && (d + "e" + x)[|d|..] == "e" + x
  {
    assert d + "e" + x == d + ("e" + x);
    LeadingDigitsAppend(d, "e" + x);
  }

  /** The longest digit prefix of digits followed by a non-digit is those digits. */
  lemma {:induction false} LeadingDigitsAppend(d: string, r: string)
    requires AllDigits(d) && r != [] && !IsDigit(r[0])
    ensures LeadingDigits(d + r) == d && (d + r)[|d|..] == r
  {
    if d != [] {
      assert (d + r)[1..] == d[1..] + r;
      LeadingDigitsAppend(d[1..], r);
    }
  }

  /** After the integer digits, `e<digits>` has no fraction and reads its digits as the exponent. */
  lemma ExponentOfDigits(x: string)
    requires x != [] && AllDigits(x)
    ensures FractionOf("e" + x) == "" && AfterFraction("e" + x) == "e" + x
    ensures Exponent("e" + x) == DigitsValue(x)
  {
    assert ("e" + x)[0] == 'e';
    assert ("e" + x)[1..] == x;
    assert IsDigit(x[0]);
    LeadingDigitsOfDigits(x);
  }

  /** A numeral without fraction digits scales its integer digits by the exponent. */
  lemma MagnitudeOfWhole(d: string, e: nat)
    requires AllDigits(d)
    ensures Magnitude(Numeral(d, "", e)) == ScaleUp(DigitsValue(d), e)
  {
    assert d + "" == d;
  }

  /** The cast reads scientific notation: `(int)"1e3"` is 1000, not 1. */
  lemma IntCastOneThousand()
    ensures IntCast("1e3") == 1000
  {
    assert "1" + "e" + "3" == "1e3";
    IntCastScientific("1", "3");
    assert DigitsValue("1") == 1 && DigitsValue("3") == 3;
    assert ScaleUp(1, 3) == 1000;
  }

  /** A string without a numeric prefix casts to 0. */
  lemma IntCastOfWord()
    ensures IntCast("abc") == 0
  {
    assert TrimLeft("abc", Blanks) == "abc" by {
      assert 'a' !in Blanks;
    }
    IntCastWithoutNumber("abc");
  }

  /** Different integers have different string forms. */
  lemma IntToStringInjective(i: int, j: int)
    requires IntToString(i) == IntToString(j)
    ensures i == j
  {
    IntCastOfIntToString(i);
    IntCastOfIntToString(j);
  }

  // ---------------------------------------------------------------------------
  // Substring search
  // ---------------------------------------------------------------------------

  /** `pattern` occurs in `text` starting at position `i`. */
  predicate OccursAt(text: string, pattern: string, i: int) {
    0 <= i <= |text| - |pattern| && text[i..i + |pattern|] == pattern
  }

  /** `text` contains `pattern` as a contiguous substring. */
  predicate Contains(text: string, pattern: string) {
    exists i :: 0 <= i <= |text| && OccursAt(text, pattern, i)
  }

  // ---------------------------------------------------------------------------
  // json_encode of a string
  // ---------------------------------------------------------------------------

  /** The escape `json_encode` writes for one character of a string. */
  function JsonEscapeChar(c: char): string {
    if c == '"' then "\\\""
    else if c == '\\' then "\\\\"
    else if c == '/' then "\\/"
    else if c == '\U{8}' then "\\b"
    else if c == '\U{C}' then "\\f"
    else if c == '\n' then "\\n"
    else if c == '\r' then "\\r"
    else if c == '\t' then "\\t"
    else [c]
  }

  function JsonEscape(s: string): string {
    if s == [] then "" else JsonEscapeChar(s[0]) + JsonEscape(s[1..])
  }

  /** `json_encode` of a string value: the escaped characters between double quotes. */
  function JsonString(s: string): string {
    "\"" + JsonEscape(s) + "\""
  }

  /** The character a JSON escape `\c` stands for. */
  function JsonUnescapeChar(c: char): char {
    if c == 'b' then '\U{8}'
    else if c == 'f' then '\U{C}'
    else if c == 'n' then '\n'
    else if c == 'r' then '\r'
    else if c == 't' then '\t'
    else c
  }

  /** Reads back the characters of an escaped JSON string body. */
  function JsonUnescape(t: string): string {
    if t == [] then ""
    else if t[0] == '\\' && |t| >= 2 then [JsonUnescapeChar(t[1])] + JsonUnescape(t[2..])
    else [t[0]] + JsonUnescape(t[1..])
  }

  /** Unescaping what `json_encode` escaped gives the original string. */
  lemma {:induction false} JsonUnescapeEscape(s: string)
    ensures JsonUnescape(JsonEscape(s)) == s
  {
    if s != [] {
      JsonUnescapeEscape(s[1..]);
      UnescapeEscapedChar(s[0], JsonEscape(s[1..]));
      assert s == [s[0]] + s[1..];
    }
  }

  /** Unescaping reads one escaped character back and goes on with the rest. */
  lemma UnescapeEscapedChar(c: char, rest: string)
    ensures JsonUnescape(JsonEscapeChar(c) + rest) == [c] + JsonUnescape(rest)
  {
    var e := JsonEscapeChar(c);
    if |e| == 2 {
      assert (e + rest)[0] == '\\' && (e + rest)[1] == e[1];
      assert (e + rest)[2..] == rest;
    } else {
      assert (e + rest)[1..] == rest;
    }
  }

  /** `json_encode` is injective on strings. */
  lemma JsonEscapeInjective(s: string, t: string)
    requires JsonEscape(s) == JsonEscape(t)
    ensures s == t
  {
    JsonUnescapeEscape(s);
    JsonUnescapeEscape(t);
  }

  // ---------------------------------------------------------------------------
  // json_encode of an object with string members, and trim
  // ---------------------------------------------------------------------------

  /** One `"key":value` member of a JSON object. */
  function JsonMember(key: string, value: string): string {
    JsonString(key) + ":" + JsonString(value)
  }

  /** The members of a JSON object, separated by commas. */
  function JsonMembers(entries: seq<(string, string)>): string {
    if entries == [] then ""
    else if |entries| == 1 then JsonMember(entries[0].0, entries[0].1)
    else JsonMember(entries[0].0, entries[0].1) + "," + JsonMembers(entries[1..])
  }

  /** `json_encode` of an associative array whose values are strings. */
  function JsonObject(entries: seq<(string, string)>): string {
    "{" + JsonMembers(entries) + "}"
  }

  function TrimLeft(s: string, chars: set<char>): (t: string)
    ensures |t| <= |s| && t == s[|s| - |t|..]
    ensures t != [] ==> t[0] !in chars
  {
    if s != [] && s[0] in chars then TrimLeft(s[1..], chars) else s
  }

  function TrimRight(s: string, chars: set<char>): (t: string)
    ensures |t| <= |s| && t == s[..|t|]
    ensures t != [] ==> t[|t| - 1] !in chars
  {
    if s != [] && s[|s| - 1] in chars then TrimRight(s[..|s| - 1], chars) else s
  }

  /** PHP `trim(s, chars)`: strips the given characters from both ends. */
  function Trim(s: string, chars: set<char>): string {
    TrimRight(TrimLeft(s, chars), chars)
  }

  /** Trimming a string wrapped in one trimmed character on each side gives back the string. */
  lemma TrimOneLayer(m: string, chars: set<char>, open: char, close: char)
    requires m != [] && m[0] !in chars && m[|m| - 1] !in chars
    requires open in chars && close in chars
    ensures Trim([open] + m + [close], chars) == m
  {
    assert ([open] + m + [close])[1..] == m + [close];
    assert TrimLeft([open] + m + [close], chars) == m + [close];
    assert (m + [close])[..|m|] == m;
    assert TrimRight(m + [close], chars) == TrimRight(m, chars);
  }

  /** Substrings compose: a substring of a substring is a substring. */
  lemma ContainsTransitive(text: string, middle: string, pattern: string)
    requires Contains(text, middle) && Contains(middle, pattern)
    ensures Contains(text, pattern)
  {
    var i :| 0 <= i <= |text| && OccursAt(text, middle, i);
    var j :| 0 <= j <= |middle| && OccursAt(middle, pattern, j);
    assert middle == text[i..i + |middle|];
    forall t | 0 <= t < |pattern| ensures text[i + j + t] == pattern[t] {
      assert middle[j + t] == pattern[t];
      assert text[i + (j + t)] == middle[j + t];
    }
    assert text[i + j..i + j + |pattern|] == pattern;
    assert OccursAt(text, pattern, i + j);
  }

  /** A string contains whatever either of its halves contains. */
  lemma ContainsInConcat(left: string, right: string, pattern: string)
    requires Contains(left, pattern) || Contains(right, pattern)
    ensures Contains(left + right, pattern)
  {
    if Contains(left, pattern) {
      var i :| 0 <= i <= |left| && OccursAt(left, pattern, i);
      assert (left + right)[i..i + |pattern|] == left[i..i + |pattern|];
      assert OccursAt(left + right, pattern, i);
    } else {
      var i :| 0 <= i <= |right| && OccursAt(right, pattern, i);
      assert (left + right)[|left| + i..|left| + i + |pattern|] == right[i..i + |pattern|];
      assert OccursAt(left + right, pattern, |left| + i);
    }
  }

  lemma ContainsSelf(s: string)
    ensures Contains(s, s)
  {
    assert OccursAt(s, s, 0);
  }

  /** Every member of a JSON object occurs in its encoding. */
  lemma {:induction false} JsonObjectContainsMember(entries: seq<(string, string)>, k: nat)
    requires k < |entries|
    ensures Contains(JsonObject(entries), JsonMember(entries[k].0, entries[k].1))
  {
    var m := JsonMember(entries[k].0, entries[k].1);
    JsonMembersContainMember(entries, k);
    ContainsInConcat("{", JsonMembers(entries), m);
    ContainsInConcat("{" + JsonMembers(entries), "}", m);
  }

  lemma {:induction false} JsonMembersContainMember(entries: seq<(string, string)>, k: nat)
    requires k < |entries|
    ensures Contains(JsonMembers(entries), JsonMember(entries[k].0, entries[k].1))
  {
    var m := JsonMember(entries[k].0, entries[k].1);
    var first := JsonMember(entries[0].0, entries[0].1);
    if |entries| == 1 {
      ContainsSelf(m);
    } else if k == 0 {
      ContainsSelf(m);
      ContainsInConcat(first, ",", m);
      ContainsInConcat(first + ",", JsonMembers(entries[1..]), m);
    } else {
      JsonMembersContainMember(entries[1..], k - 1);
      ContainsInConcat(first + ",", JsonMembers(entries[1..]), m);
    }
  }
}
