/**
 * The two pieces of JavaScript string behaviour the preview relies on:
 * String.prototype.trim (section 22.1.3 of ECMA-262, which strips the
 * WhiteSpace and LineTerminator code points of section 12) and the decimal
 * rendering of a non-negative integral Number inside a template literal.
 */
module JsString {

  /** WhiteSpace (TAB, VT, FF, ZWNBSP and every Zs code point) or LineTerminator. */
  predicate IsTrimmable(c: char) {
    var v := c as int;
    // WhiteSpace: TAB, VT, FF, ZWNBSP
    || v == 0x09 || v == 0x0B || v == 0x0C || v == 0xFEFF
    // WhiteSpace: the Zs (space separator) category
    || v == 0x20 || v == 0xA0 || v == 0x1680 || (0x2000 <= v <= 0x200A)
    || v == 0x202F || v == 0x205F || v == 0x3000
    // LineTerminator: LF, CR, LS, PS
    || v == 0x0A || v == 0x0D || v == 0x2028 || v == 0x2029
  }

  predicate AllTrimmable(s: seq<char>) {
    forall k | 0 <= k < |s| :: IsTrimmable(s[k])
  }

  /** Drops the leading run of trimmable characters. */
  function TrimStart(s: seq<char>): (r: seq<char>)
    ensures |r| <= |s| && r == s[|s| - |r|..]
    ensures AllTrimmable(s[..|s| - |r|])
    ensures r == [] || !IsTrimmable(r[0])
  {
    if s != [] && IsTrimmable(s[0]) then
      var r := TrimStart(s[1..]);
      var n := |s| - |r|;
      assert s[n..] == s[1..][n - 1..];
      assert forall k | 0 <= k < n :: k == 0 || s[k] == s[1..][..n - 1][k - 1];
      r
    else s
  }

  /** Drops the trailing run of trimmable characters. */
  function TrimEnd(s: seq<char>): (r: seq<char>)
    ensures |r| <= |s| && r == s[..|r|]
    ensures AllTrimmable(s[|r|..])
    ensures r == [] || !IsTrimmable(r[|r| - 1])
  {
    if s != [] && IsTrimmable(s[|s| - 1]) then
      var r := TrimEnd(s[..|s| - 1]);
      assert s[..|r|] == s[..|s| - 1][..|r|];
      assert forall k | |r| <= k < |s| :: k == |s| - 1 || s[k] == s[..|s| - 1][|r|..][k - |r|];
      r
    else s
  }

  /** String.prototype.trim. */
  function Trim(s: seq<char>): (r: seq<char>)
    ensures |r| <= |s|
    ensures r != [] ==> !IsTrimmable(r[0]) && !IsTrimmable(r[|r| - 1])
  {
    var t := TrimStart(s);
    var r := TrimEnd(t);
    assert r != [] ==> r[0] == t[0];
    r
  }

  /** A string trims to "" exactly when every character of it is trimmable. */
  lemma TrimEmptyIff(s: seq<char>)
    ensures Trim(s) == [] <==> AllTrimmable(s)
  {
    var t := TrimStart(s);
    if Trim(s) == [] {
      assert AllTrimmable(t[0..]);
      assert s == s[..|s| - |t|] + t;
    }
    if t != [] {
      assert !IsTrimmable(s[|s| - |t|]);
    }
  }

  /** A string that starts with a visible character never trims to "". */
  lemma TrimNonEmpty(s: seq<char>)
    requires |s| > 0 && !IsTrimmable(s[0])
    ensures Trim(s) != []
  {
    TrimEmptyIff(s);
  }

  /** Trimming twice is trimming once. */
  lemma TrimIdempotent(s: seq<char>)
    ensures Trim(Trim(s)) == Trim(s)
  {
    var t := Trim(s);
    if t != [] {
      assert TrimStart(t) == t;
    }
  }

  // ---------------------------------------------------------------------
  // Decimal rendering of a timestamp.
  // ---------------------------------------------------------------------

  predicate IsDigit(c: char) {
    '0' <= c <= '9'
  }

  function DigitChar(d: int): (c: char)
    requires 0 <= d < 10
    ensures IsDigit(c) && c as int - '0' as int == d
  {
    (d + '0' as int) as char
  }

  /**
   * Number::toString of a non-negative integer: its decimal digits, without
   * leading zeros. ECMAScript renders integral Numbers below 10^21 this way,
   * which covers every clock value Date.now() can return.
   */
  function DecimalString(n: nat): (r: string)
    ensures |r| >= 1
    ensures forall k | 0 <= k < |r| :: IsDigit(r[k])
    ensures r[0] == '0' ==> n == 0
  {
    if n < 10 then [DigitChar(n)] else DecimalString(n / 10) + [DigitChar(n % 10)]
  }

  /** The value of a run of decimal digits. */
  function DecimalValue(s: string): nat
    requires forall k | 0 <= k < |s| :: IsDigit(s[k])
  {
    if s == [] then 0
    else
      var last := s[|s| - 1];
      assert IsDigit(last);
      DecimalValue(s[..|s| - 1]) * 10 + (last as int - '0' as int)
  }

  lemma {:induction false} DecimalRoundTrip(n: nat)
    ensures DecimalValue(DecimalString(n)) == n
  {
    if n >= 10 {
      var r := DecimalString(n);
      assert r[..|r| - 1] == DecimalString(n / 10);
      DecimalRoundTrip(n / 10);
    }
  }

  /** Different clock values render as different strings. */
  lemma DecimalInjective(a: nat, b: nat)
    requires a != b
    ensures DecimalString(a) != DecimalString(b)
  {
    DecimalRoundTrip(a);
    DecimalRoundTrip(b);
  }
}
