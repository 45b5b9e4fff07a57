/**
 * The parts of JavaScript's value and string semantics that the catalogue code relies on:
 * truthiness, `toLowerCase`, `indexOf`/`replace` with a string pattern, `split` on one
 * character, and `parseInt`.
 */
module Js {
  import opened Wrappers

  /**
   * A JavaScript value, as far as the catalogue code inspects one.
   * `Num` holds integral numbers; `Other` stands for any other truthy value
   * (an object, an array, a non-integral number) that has no `length` property.
   */
  datatype JsValue = Undefined | Null | Bool(b: bool) | Num(n: int) | Str(s: string) | Other

  /** JavaScript truthiness: `if (v)`. */
  predicate Truthy(v: JsValue) {
    match v
    case Undefined => false
    case Null => false
    case Bool(b) => b
    case Num(n) => n != 0
    case Str(s) => s != ""
    case Other => true
  }

  /** The values that `??` and `?.` treat as missing. */
  predicate Nullish(v: JsValue) {
    v.Undefined? || v.Null?
  }

  /** `v && typeof v === 'string'`: a non-empty string. */
  predicate NonEmptyString(v: JsValue) {
    v.Str? && v.s != ""
  }

  /** A string option that is present and non-empty, i.e. truthy. */
  predicate Present(o: Option<string>) {
    o.Some? && o.value != ""
  }

  // ---------------------------------------------------------------------------
  // Case

  predicate IsUpper(c: char) {
    'A' <= c <= 'Z'
  }

  /** `toLowerCase` on one character, for the ASCII letters. */
  function LowerChar(c: char): (r: char)
    ensures !IsUpper(r)
    ensures !IsUpper(c) ==> r == c
    ensures IsUpper(c) ==> r as int == c as int + 32
  {
    if IsUpper(c) then (c as int + 32) as char else c
  }

  predicate IsLowerCase(s: string) {
    forall i :: 0 <= i < |s| ==> !IsUpper(s[i])
  }

  /** `s.toLowerCase()`: same length, every character lowered, nothing upper-case left. */
  function Lower(s: string): (r: string)
    ensures |r| == |s| && IsLowerCase(r)
    ensures forall i :: 0 <= i < |s| ==> r[i] == LowerChar(s[i])
  {
    seq(|s|, i requires 0 <= i < |s| => LowerChar(s[i]))
  }

  /** Lowering a string that is already lower-case changes nothing. */
  lemma LowerOfLowerCase(s: string)
    requires IsLowerCase(s)
    ensures Lower(s) == s
  {
  }

  // ---------------------------------------------------------------------------
  // Searching and replacing

  predicate OccursAt(s: string, pat: string, i: nat) {
    i + |pat| <= |s| && s[i..i + |pat|] == pat
  }

  /** `s.startsWith(p)`. */
  predicate StartsWith(s: string, p: string) {
    |p| <= |s| && s[..|p|] == p
  }

  /** The first index at or after k where pat occurs in s. */
  function IndexFrom(s: string, pat: string, k: nat): (r: Option<nat>)
    ensures r.Some? ==> k <= r.value && OccursAt(s, pat, r.value)
    ensures r.Some? ==> forall j :: k <= j < r.value ==> !OccursAt(s, pat, j)
    ensures r.None? ==> forall j :: k <= j ==> !OccursAt(s, pat, j)
    decreases |s| - k
  {
    if k + |pat| > |s| then None
    else if s[k..k + |pat|] == pat then Some(k)
    else IndexFrom(s, pat, k + 1)
  }

  /** `s.indexOf(pat)`, with None for -1. */
  function IndexOf(s: string, pat: string): (r: Option<nat>)
    ensures r.Some? ==> OccursAt(s, pat, r.value) && forall j: nat :: j < r.value ==> !OccursAt(s, pat, j)
    ensures r.None? ==> forall j: nat :: !OccursAt(s, pat, j)
  {
    IndexFrom(s, pat, 0)
  }

  /** `s.replace(pat, rep)` with a string pattern: only the first occurrence is replaced. */
  function ReplaceFirst(s: string, pat: string, rep: string): (r: string)
    ensures IndexOf(s, pat).None? ==> r == s
    ensures IndexOf(s, pat).Some? ==>
              var i := IndexOf(s, pat).value;
              i + |rep| <= |r| && r[..i] == s[..i] && OccursAt(r, rep, i) && r[i + |rep|..] == s[i + |pat|..]
    ensures |pat| == |rep| ==> |r| == |s|
  {
    match IndexOf(s, pat)
    case None => s
    case Some(i) => s[..i] + rep + s[i + |pat|..]
  }

  /** Replacing inside a lower-case string by a lower-case string keeps it lower-case. */
  lemma ReplaceKeepsLowerCase(s: string, pat: string, rep: string)
    requires IsLowerCase(s) && IsLowerCase(rep)
    ensures IsLowerCase(ReplaceFirst(s, pat, rep))
  {
    match IndexOf(s, pat)
    case None =>
    case Some(i) =>
      var r := ReplaceFirst(s, pat, rep);
      assert r == s[..i] + rep + s[i + |pat|..];
      forall k | 0 <= k < |r| ensures !IsUpper(r[k]) {
        if k < i {
          assert r[k] == s[k];
        } else if k < i + |rep| {
          assert r[k] == rep[k - i];
        } else {
          assert r[k] == s[k - |rep| + |pat|];
        }
      }
  }

  // ---------------------------------------------------------------------------
  // Splitting on one character

  function FirstIndexOf(s: string, c: char): (i: nat)
    requires c in s
    ensures i < |s| && s[i] == c && c !in s[..i]
  {
    if s[0] == c then 0
    else
      var j := FirstIndexOf(s[1..], c);
      assert s[..j + 1] == [s[0]] + s[1..][..j];
      j + 1
  }

  /** `s.split(sep)` for a one-character separator: the pieces between separators, empty ones included. */
  function Split(s: string, sep: char): (parts: seq<string>)
    ensures |parts| >= 1
    ensures forall i :: 0 <= i < |parts| ==> sep !in parts[i]
    decreases |s|
  {
    if sep in s then
      var i := FirstIndexOf(s, sep);
      [s[..i]] + Split(s[i + 1..], sep)
    else
      [s]
  }

  /** `parts.join(sep)`. */
  function Join(parts: seq<string>, sep: char): string
  {
    if parts == [] then ""
    else if |parts| == 1 then parts[0]
    else parts[0] + [sep] + Join(parts[1..], sep)
  }

  /** Splitting loses nothing: joining the pieces with the separator gives the string back. */
  lemma {:induction false} JoinSplit(s: string, sep: char)
    ensures Join(Split(s, sep), sep) == s
    decreases |s|
  {
    if sep in s {
      var i := FirstIndexOf(s, sep);
      var rest := Split(s[i + 1..], sep);
      JoinSplit(s[i + 1..], sep);
      assert Split(s, sep) == [s[..i]] + rest;
      assert ([s[..i]] + rest)[1..] == rest;
      assert s == s[..i] + [sep] + s[i + 1..];
    }
  }

  /** Joining pieces that hold no separator and splitting again gives the pieces back. */
  lemma {:induction false} SplitJoin(parts: seq<string>, sep: char)
    requires |parts| >= 1
    requires forall i :: 0 <= i < |parts| ==> sep !in parts[i]
    ensures Split(Join(parts, sep), sep) == parts
    decreases |parts|
  {
    if |parts| > 1 {
      var s := Join(parts, sep);
      var head := parts[0];
      var tail := Join(parts[1..], sep);
      assert s == head + [sep] + tail;
      assert s[|head|] == sep;
      assert sep in s;
      var i := FirstIndexOf(s, sep);
      assert i == |head|;
      assert s[..i] == head;
      assert s[i + 1..] == tail;
      SplitJoin(parts[1..], sep);
    } else {
      assert Join(parts, sep) == parts[0];
    }
  }

  /** How `undefined` reads when it is added to a string. */
  const UndefinedText: string := "undefined"

  /** `chars[k]` of `s.split('')` as it reads inside a `+`: the k-th character, or "undefined". */
  function CharAtOrUndefined(s: string, k: nat): (r: string)
    ensures k < |s| ==> r == [s[k]]
    ensures k >= |s| ==> r == UndefinedText
  {
    if k < |s| then [s[k]] else UndefinedText
  }

  /**
   * `chars[k] + chars[k + 1]` for `chars = s.split('')`, as the text `parseInt` reads from it.
   * One missing character is concatenated as "undefined"; when both are missing the sum is
   * `undefined + undefined`, the number NaN, which `parseInt` reads as "NaN".
   */
  function CharPair(s: string, k: nat): (r: string)
    ensures k + 1 < |s| ==> r == [s[k], s[k + 1]]
    ensures k + 1 == |s| ==> r == [s[k]] + UndefinedText
    ensures k >= |s| ==> r == "NaN"
  {
    if k >= |s| then "NaN" else CharAtOrUndefined(s, k) + CharAtOrUndefined(s, k + 1)
  }

  // ---------------------------------------------------------------------------
  // parseInt

  /**
   * The ECMAScript white-space and line-terminator characters parseInt skips: tab, line
   * feed, vertical tab, form feed, carriage return, the byte-order mark, the line and
   * paragraph separators, and every space separator of Unicode (category Zs).
   */
  predicate IsSpace(c: char) {
    c == ' ' || c == '\t' || c == '\n' || c == '\r' || c as int == 0x0B || c as int == 0x0C
    || c as int == 0xA0 || c as int == 0xFEFF || c as int == 0x2028 || c as int == 0x2029
    || c as int == 0x1680 || 0x2000 <= c as int <= 0x200A || c as int == 0x202F
    || c as int == 0x205F || c as int == 0x3000
  }

  /** `parseInt` first drops the leading white space. */
  function TrimStart(s: string): string
  {
    if s != [] && IsSpace(s[0]) then TrimStart(s[1..]) else s
  }

  /** What is left is a suffix of the input that does not start with white space. */
  lemma {:induction false} TrimStartIsSuffix(s: string)
    ensures |TrimStart(s)| <= |s| && TrimStart(s) == s[|s| - |TrimStart(s)|..]
    ensures TrimStart(s) != [] ==> !IsSpace(TrimStart(s)[0])
  {
    if s != [] && IsSpace(s[0]) {
      TrimStartIsSuffix(s[1..]);
    }
  }

  /** A leading white-space character, "\u3000" as much as " ", makes no difference to parseInt. */
  lemma LeadingSpaceIgnored(c: char, s: string, hex: bool)
    requires IsSpace(c)
    ensures ParseInt([c] + s, hex) == ParseInt(s, hex)
  {
    assert ([c] + s)[1..] == s;
  }

  /** The value of c as a digit: 0-9, then the letters as 10..35; -1 for anything else. */
  function DigitValue(c: char): (d: int)
    ensures -1 <= d < 36
  {
    if '0' <= c <= '9' then c as int - '0' as int
    else if 'a' <= c <= 'z' then c as int - 'a' as int + 10
    else if 'A' <= c <= 'Z' then c as int - 'A' as int + 10
    else -1
  }

  predicate IsDigit(c: char, radix: nat) {
    0 <= DigitValue(c) < radix
  }

  predicate AllDigits(s: string, radix: nat) {
    forall i :: 0 <= i < |s| ==> IsDigit(s[i], radix)
  }

  /** The length of the longest prefix of s made of digits of the radix. */
  function DigitRun(s: string, radix: nat): (n: nat)
    ensures n <= |s|
  {
    if s != [] && IsDigit(s[0], radix) then 1 + DigitRun(s[1..], radix) else 0
  }

  /** The digit run is all digits and stops at the first character that is not one. */
  lemma {:induction false} DigitRunIsLongest(s: string, radix: nat)
    ensures AllDigits(s[..DigitRun(s, radix)], radix)
    ensures DigitRun(s, radix) < |s| ==> !IsDigit(s[DigitRun(s, radix)], radix)
  {
    if s != [] && IsDigit(s[0], radix) {
      DigitRunIsLongest(s[1..], radix);
      var n := DigitRun(s, radix);
      assert forall i :: 1 <= i < n ==> s[..n][i] == s[1..][..n - 1][i - 1];
    }
  }

  /** The number a string of digits denotes, most significant digit first. */
  function DigitsValue(s: string, radix: nat): int
  {
    if s == [] then 0 else DigitsValue(s[..|s| - 1], radix) * radix + DigitValue(s[|s| - 1])
  }

  /**
   * `parseInt(s)` (hex = false: no radix given) or `parseInt(s, 16)` (hex = true), following
   * the ECMAScript algorithm: skip leading white space, take an optional sign, strip a "0x"/"0X"
   * prefix (which switches an unspecified radix to 16), then read the longest run of digits.
   * None stands for NaN (no digits at all).
   */
  function ParseInt(s: string, hex: bool): (r: Option<int>)
    ensures TrimStart(s) == [] ==> r.None?
    ensures var t := TrimStart(s);
            t != [] && t[0] != '-' && t[0] != '+' && !IsDigit(t[0], if hex then 16 else 10) ==> r.None?
    ensures var t := TrimStart(s);
            (t != [] && IsDigit(t[0], if hex then 16 else 10)
             && !(|t| >= 2 && t[0] == '0' && (t[1] == 'x' || t[1] == 'X'))) ==> r.Some?
  {
    ParseSigned(TrimStart(s), hex)
  }

  /** parseInt after the white space: an optional sign, then the unsigned number. */
  function ParseSigned(t: string, hex: bool): Option<int> {
    if t != [] && (t[0] == '-' || t[0] == '+') then
      var v := ParseUnsigned(t[1..], hex);
      if v.Some? && t[0] == '-' then Some(-v.value) else v
    else ParseUnsigned(t, hex)
  }

  /** parseInt after the sign: an optional "0x" prefix, then the longest run of digits. */
  function ParseUnsigned(u: string, hex: bool): Option<int> {
    var prefixed := |u| >= 2 && u[0] == '0' && (u[1] == 'x' || u[1] == 'X');
    var radix := if hex || prefixed then 16 else 10;
    var digits := if prefixed then u[2..] else u;
    var n := DigitRun(digits, radix);
    if n == 0 then None else Some(DigitsValue(digits[..n], radix))
  }

  // ---------------------------------------------------------------------------
  // Decimal numerals, the inverse of parseInt on natural numbers

  function DigitChar(d: nat): (c: char)
    requires d < 10
    ensures DigitValue(c) == d
  {
    ('0' as int + d) as char
  }

  /** The decimal numeral of n, as `String(n)` writes it. */
  function DecimalString(n: nat): (s: string)
    ensures s != [] && AllDigits(s, 10)
    ensures s[0] == '0' ==> n == 0
  {
    if n < 10 then [DigitChar(n)] else DecimalString(n / 10) + [DigitChar(n % 10)]
  }

  lemma {:induction false} DecimalStringValue(n: nat)
    ensures DigitsValue(DecimalString(n), 10) == n
  {
    var s := DecimalString(n);
    if n >= 10 {
      assert s[..|s| - 1] == DecimalString(n / 10);
      DecimalStringValue(n / 10);
    } else {
      assert s[..|s| - 1] == [];
    }
  }

  lemma {:induction false} DigitRunOfDigits(s: string, radix: nat)
    requires AllDigits(s, radix)
    ensures DigitRun(s, radix) == |s|
  {
    if s != [] {
      DigitRunOfDigits(s[1..], radix);
    }
  }

  /** parseInt of a string of decimal digits is the number they spell. */
  lemma ParseNumeral(s: string)
    requires s != [] && AllDigits(s, 10)
    ensures ParseInt(s, false) == Some(DigitsValue(s, 10))
  {
    assert IsDigit(s[0], 10);
    SkipNothing(s, false);
    assert |s| >= 2 ==> IsDigit(s[1], 10);
    ReadDigits(s, 10, false);
  }

  /** A string that starts with a digit has no white space or sign for parseInt to skip. */
  lemma SkipNothing(s: string, hex: bool)
    requires s != [] && 0 <= DigitValue(s[0])
    ensures TrimStart(s) == s
    ensures ParseSigned(s, hex) == ParseUnsigned(s, hex)
  {
    assert !IsSpace(s[0]);
    assert s[0] != '-' && s[0] != '+';
  }

  /** Without a "0x" prefix, parseInt reads a string of digits of the radix in full. */
  lemma ReadDigits(s: string, radix: nat, hex: bool)
    requires s != [] && AllDigits(s, radix)
    requires radix == (if hex then 16 else 10)
    requires !(|s| >= 2 && s[0] == '0' && (s[1] == 'x' || s[1] == 'X'))
    ensures ParseUnsigned(s, hex) == Some(DigitsValue(s, radix))
  {
    DigitRunOfDigits(s, radix);
    assert s[..|s|] == s;
  }

  /** parseInt of the decimal numeral of any natural number n is n. */
  lemma ParseDecimalString(n: nat)
    ensures ParseInt(DecimalString(n), false) == Some(n)
  {
    ParseNumeral(DecimalString(n));
    DecimalStringValue(n);
  }

  /** `parseInt(a + b, 16)` on two hexadecimal digits is the byte they spell, 0..255. */
  lemma HexPair(s: string)
    requires |s| == 2 && IsDigit(s[0], 16) && IsDigit(s[1], 16)
    ensures ParseInt(s, true) == Some(DigitValue(s[0]) * 16 + DigitValue(s[1]))
    ensures 0 <= DigitValue(s[0]) * 16 + DigitValue(s[1]) <= 255
  {
    SkipNothing(s, true);
    assert s[1] != 'x' && s[1] != 'X';
    ReadDigits(s, 16, true);
    TwoDigits(s, 16);
  }

  /** Two digits spell the first times the radix plus the second. */
  lemma TwoDigits(s: string, radix: nat)
    requires |s| == 2 && AllDigits(s, radix)
    ensures DigitsValue(s, radix) == DigitValue(s[0]) * radix + DigitValue(s[1])
  {
    assert s[..1][..0] == [];
    assert DigitsValue(s[..1], radix) == DigitValue(s[0]);
  }

}
