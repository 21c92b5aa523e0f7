/** The string primitives the components rely on: searching, printing and reading integers. */
module Text {
  import opened Wrappers

  // ---- Searching -----------------------------------------------------------------------------

  /** `s.find(c, from)`; None stands for npos. */
  function Find(s: string, c: char, from: nat): (r: Option<nat>)
    ensures r.Some? ==> from <= r.value < |s| && s[r.value] == c
    ensures forall k :: from <= k < (if r.Some? then r.value else |s|) ==> s[k] != c
    decreases |s| - from
  {
    if from >= |s| then None
    else if s[from] == c then Some(from)
    else Find(s, c, from + 1)
  }

  predicate OccursAt(s: string, pat: string, i: nat) {
    i + |pat| <= |s| && s[i..i + |pat|] == pat
  }

  /** `s.find(pat)` for a non-empty pattern, from position `from` on. */
  function FindText(s: string, pat: string, from: nat): (r: Option<nat>)
    ensures r.Some? ==> from <= r.value && OccursAt(s, pat, r.value)
    ensures forall k: nat :: from <= k && (r.Some? ==> k < r.value) ==> !OccursAt(s, pat, k)
    decreases |s| - from
  {
    if from + |pat| > |s| then None
    else if s[from..from + |pat|] == pat then Some(from)
    else if from < |s| then FindText(s, pat, from + 1)
    else None
  }

  /** The first occurrence is where nothing earlier matches. */
  lemma FindUnique(s: string, c: char, from: nat, i: nat)
    requires from <= i < |s| && s[i] == c
    requires forall k :: from <= k < i ==> s[k] != c
    ensures Find(s, c, from) == Some(i)
  {
  }

  // ---- Digits --------------------------------------------------------------------------------

  function Digit(d: nat): (c: char)
    requires d < 16
    ensures DigitValue(c) == Some(d)
    ensures c != '-' && c != '+' && c != '_' && c != '&' && c != '=' && c != '%' && !IsSpace(c)
  {
    if d < 10 then '0' + d as char else 'a' + (d - 10) as char
  }

  function DigitValue(c: char): (r: Option<nat>)
    ensures r.Some? ==> r.value < 16
  {
    if '0' <= c <= '9' then Some((c - '0') as nat)
    else if 'a' <= c <= 'f' then Some((c - 'a') as nat + 10)
    else if 'A' <= c <= 'F' then Some((c - 'A') as nat + 10)
    else None
  }

  predicate IsDigit(c: char, base: nat) {
    DigitValue(c).Some? && DigitValue(c).value < base
  }

  predicate IsSpace(c: char) {
    c == ' ' || 9 <= c as int <= 13
  }

  predicate AllDigits(s: string, base: nat) {
    forall i :: 0 <= i < |s| ==> IsDigit(s[i], base)
  }

  /** The decimal digits of n, most significant first, without leading zeros. */
  function Digits(n: nat): (s: string)
    ensures s != "" && AllDigits(s, 10)
    ensures Value(s, 10) == n
  {
    if n < 10 then
      assert [Digit(n)][..0] == "";
      [Digit(n)]
    else
      var s := Digits(n / 10) + [Digit(n % 10)];
      assert s[..|s| - 1] == Digits(n / 10);
      s
  }

  function Value(s: string, base: nat): nat
    requires AllDigits(s, base)
  {
    if s == "" then 0
    else
      var high, low := Value(s[..|s| - 1], base), DigitValue(s[|s| - 1]).value;
      if base == 10 then 10 * high + low else 16 * high + low // the two bases in use
  }

  /** `std::to_string` and the stream printer for integers. */
  function ToDecimal(n: int): (s: string)
    ensures s != ""
    ensures forall i :: 0 <= i < |s| ==> IsDigit(s[i], 10) || s[i] == '-'
  {
    if n < 0 then "-" + Digits(-n) else Digits(n)
  }

  // ---- std::stoi -----------------------------------------------------------------------------

  const INT_MIN := -0x8000_0000
  const INT_MAX := 0x7fff_ffff

  predicate InInt32(n: int) {
    INT_MIN <= n <= INT_MAX
  }

  function SkipSpace(s: string): string {
    if s != "" && IsSpace(s[0]) then SkipSpace(s[1..]) else s
  }

  /** The longest prefix made of digits. */
  function TakeDigits(s: string, base: nat): (r: string)
    ensures AllDigits(r, base) && r <= s
    ensures |r| < |s| ==> !IsDigit(s[|r|], base)
  {
    if s != "" && IsDigit(s[0], base) then [s[0]] + TakeDigits(s[1..], base) else ""
  }

  function Signed(negative: bool, n: nat): Option<int> {
    var r: int := if negative then -(n as int) else n;
    if InInt32(r) then Some(r) else None
  }

  /** The digits at the front of `u`, negated if asked; None if there are none or the int overflows. */
  function StoiUnsigned(negative: bool, u: string, base: nat): Option<int> {
    var digits := TakeDigits(u, base);
    if digits == "" then None else Signed(negative, Value(digits, base))
  }

  function SkipHexPrefix(u: string): string {
    if |u| > 2 && u[0] == '0' && (u[1] == 'x' || u[1] == 'X') && IsDigit(u[2], 16) then u[2..] else u
  }

  /**
    `std::stoi(s, nullptr, base)` for bases 10 and 16: leading white space, one sign, an optional 0x
    in base 16, then as many digits as there are. None stands for the exception thrown when there is
    no digit or the number does not fit an int.
  */
  function Stoi(s: string, base: nat): Option<int>
    requires base == 10 || base == 16
  {
    StoiTrimmed(SkipSpace(s), base)
  }

  function StoiTrimmed(t: string, base: nat): Option<int>
    requires base == 10 || base == 16
  {
    var signed := t != "" && (t[0] == '-' || t[0] == '+');
    var u := if signed then t[1..] else t;
    StoiUnsigned(signed && t[0] == '-', if base == 16 then SkipHexPrefix(u) else u, base)
  }

  lemma {:induction false} TakeDigitsUpTo(digits: string, rest: string, base: nat)
    requires AllDigits(digits, base) && (rest != "" ==> !IsDigit(rest[0], base))
    ensures TakeDigits(digits + rest, base) == digits
  {
    if digits == "" {
      assert digits + rest == rest;
    } else {
      assert (digits + rest)[1..] == digits[1..] + rest;
      TakeDigitsUpTo(digits[1..], rest, base);
    }
  }

  lemma {:induction false} SkipAllSpace(space: string, t: string)
    requires (forall i :: 0 <= i < |space| ==> IsSpace(space[i])) && (t != "" ==> !IsSpace(t[0]))
    ensures SkipSpace(space + t) == t
  {
    if space == "" {
      assert space + t == t;
    } else {
      assert (space + t)[1..] == space[1..] + t;
      SkipAllSpace(space[1..], t);
    }
  }

  lemma StoiOfSigned(sign: string, u: string)
    requires sign == "" || sign == "+" || sign == "-"
    requires u != "" && IsDigit(u[0], 10)
    ensures StoiTrimmed(sign + u, 10) == StoiUnsigned(sign == "-", u, 10)
    ensures !IsSpace((sign + u)[0])
  {
    hide StoiUnsigned, SkipHexPrefix;
    var t := sign + u;
    assert u[0] != '-' && u[0] != '+' && !IsSpace(u[0]);
    if sign == "" {
      assert t == u && t[0] == u[0];
    } else {
      assert t[0] == sign[0] && t[1..] == u;
    }
  }

  /** In base 10: white space, a sign, digits, and then anything that does not go on with a digit. */
  lemma StoiReads(space: string, sign: string, digits: string, rest: string)
    requires forall i :: 0 <= i < |space| ==> IsSpace(space[i])
    requires sign == "" || sign == "+" || sign == "-"
    requires digits != "" && AllDigits(digits, 10) && (rest != "" ==> !IsDigit(rest[0], 10))
    ensures Stoi(space + (sign + (digits + rest)), 10) == Signed(sign == "-", Value(digits, 10))
  {
    hide StoiTrimmed, Value, Signed;
    assert IsDigit(digits[0], 10) && (digits + rest)[0] == digits[0];
    StoiOfSigned(sign, digits + rest);
    TakeDigitsUpTo(digits, rest, 10);
    SkipAllSpace(space, sign + (digits + rest));
  }

  lemma StoiOfDigits(digits: string, negative: bool)
    requires digits != "" && AllDigits(digits, 10)
    ensures Stoi(if negative then "-" + digits else digits, 10) == Signed(negative, Value(digits, 10))
  {
    hide Stoi, Value, Signed;
    var sign := if negative then "-" else "";
    StoiReads("", sign, digits, "");
    assert digits + "" == digits && "" + (sign + digits) == if negative then "-" + digits else digits;
  }

  lemma TakeAllDigits(s: string, base: nat)
    requires AllDigits(s, base)
    ensures TakeDigits(s, base) == s
  {
    TakeDigitsUpTo(s, "", base);
    assert s + "" == s;
  }

  /** Printing and reading back is the identity on ints, and an exception on every other integer. */
  lemma DecimalRoundTrip(n: int)
    ensures Stoi(ToDecimal(n), 10) == if InInt32(n) then Some(n) else None
  {
    var digits := Digits(if n < 0 then -n else n);
    StoiOfDigits(digits, n < 0);
  }

  lemma DecimalInjective(m: int, n: int)
    requires ToDecimal(m) == ToDecimal(n)
    ensures m == n
  {
    var a, b := Digits(if m < 0 then -m else m), Digits(if n < 0 then -n else n);
    assert IsDigit(a[0], 10) && IsDigit(b[0], 10);
    if m < 0 && n < 0 {
      assert a == ToDecimal(m)[1..] && b == ToDecimal(n)[1..];
    }
    assert a == b;
  }

  // ---- Two hexadecimal digits ----------------------------------------------------------------

  /** One byte as `std::hex << std::setw(2) << std::setfill('0')` prints it. */
  function Hex2(b: nat): (s: string)
    requires b < 256
    ensures |s| == 2
  {
    [Digit(b / 16), Digit(b % 16)]
  }

  lemma ValueOfTwo(a: char, b: char)
    requires IsDigit(a, 16) && IsDigit(b, 16)
    ensures AllDigits([a, b], 16) && Value([a, b], 16) == DigitValue(a).value * 16 + DigitValue(b).value
  {
    assert [a, b][..1] == [a] && [a][..0] == "";
    assert Value([a], 16) == DigitValue(a).value;
  }

  lemma StoiOfTwo(s: string)
    requires |s| == 2 && AllDigits(s, 16)
    ensures Stoi(s, 16) == Some(Value(s, 16))
  {
    assert s == [s[0], s[1]];
    ValueOfTwo(s[0], s[1]);
    TakeAllDigits(s, 16);
    assert SkipSpace(s) == s && SkipHexPrefix(s) == s;
  }

  lemma Hex2RoundTrip(b: nat)
    requires b < 256
    ensures Stoi(Hex2(b), 16) == Some(b)
  {
    ValueOfTwo(Digit(b / 16), Digit(b % 16));
    StoiOfTwo(Hex2(b));
  }
}
