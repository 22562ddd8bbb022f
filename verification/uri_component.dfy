/**
 * encodeURIComponent as specified in section 19.2.6 (URI Handling Functions)
 * of ECMA-262: every code point outside the unreserved set of the URI
 * grammar is written as the UTF-8 octets of that code point, each octet as a
 * percent sign followed by two upper-case hexadecimal digits (the
 * percent-encoding of section 2.1 of RFC 3986).
 *
 * Strings are sequences of Unicode scalar values, so the URIError that the
 * standard raises for a lone surrogate cannot arise here.
 */
module UriComponent {
  import opened Wrappers

  type Byte = b: int | 0 <= b < 256

  /** The characters encodeURIComponent leaves alone: uriAlpha, DecimalDigit and uriMark. */
  predicate IsUnreserved(c: char) {
    || ('A' <= c <= 'Z')
    || ('a' <= c <= 'z')
    || ('0' <= c <= '9')
    || c == '-' || c == '_' || c == '.' || c == '!' || c == '~'
    || c == '*' || c == '\'' || c == '(' || c == ')'
  }

  predicate IsUpperHex(c: char) {
    ('0' <= c <= '9') || ('A' <= c <= 'F')
  }

  function HexDigit(n: int): (c: char)
    requires 0 <= n < 16
    ensures IsUpperHex(c)
  {
    "0123456789ABCDEF"[n]
  }

  function HexValue(c: char): (n: int)
    requires IsUpperHex(c)
    ensures 0 <= n < 16 && HexDigit(n) == c
  {
    if c <= '9' then c as int - '0' as int else c as int - 'A' as int + 10
  }

  lemma HexValueOfDigit(n: int)
    requires 0 <= n < 16
    ensures HexValue(HexDigit(n)) == n
  {
  }

  /** The UTF-8 encoding (RFC 3629) of one scalar value. */
  function Utf8(c: char): (bs: seq<Byte>)
    ensures 1 <= |bs| <= 4
  {
    var v := c as int;
    if v < 0x80 then [v]
    else if v < 0x800 then [0xC0 + v / 64, 0x80 + v % 64]
    else if v < 0x10000 then [0xE0 + v / 4096, 0x80 + (v / 64) % 64, 0x80 + v % 64]
    else [0xF0 + v / 262144, 0x80 + (v / 4096) % 64, 0x80 + (v / 64) % 64, 0x80 + v % 64]
  }

  function Utf8String(s: seq<char>): seq<Byte>
  {
    if s == [] then [] else Utf8(s[0]) + Utf8String(s[1..])
  }

  /** One octet as "%HH". */
  function Percent(b: Byte): seq<char>
  {
    ['%', HexDigit(b / 16), HexDigit(b % 16)]
  }

  function PercentAll(bs: seq<Byte>): seq<char>
  {
    if bs == [] then [] else Percent(bs[0]) + PercentAll(bs[1..])
  }

  function EncodeChar(c: char): seq<char>
  {
    if IsUnreserved(c) then [c] else PercentAll(Utf8(c))
  }

  /**
   * The shape of every encodeURIComponent result: a run of unreserved
   * characters and "%HH" triples with upper-case hexadecimal digits.
   */
  predicate IsEncoded(t: seq<char>)
    decreases |t|
  {
    || t == []
    || (IsUnreserved(t[0]) && IsEncoded(t[1..]))
    || (|t| >= 3 && t[0] == '%' && IsUpperHex(t[1]) && IsUpperHex(t[2]) && IsEncoded(t[3..]))
  }

  /** encodeURIComponent(s). */
  function Encode(s: seq<char>): (r: seq<char>)
  {
    if s == [] then [] else EncodeChar(s[0]) + Encode(s[1..])
  }

  /** Every result of Encode has the shape IsEncoded describes, and grows by at most 12x. */
  lemma {:induction false} EncodeIsEncoded(s: seq<char>)
    ensures IsEncoded(Encode(s))
    ensures |s| <= |Encode(s)| <= 12 * |s|
  {
    if s != [] {
      EncodedChar(s[0]);
      EncodeIsEncoded(s[1..]);
      EncodedConcat(EncodeChar(s[0]), Encode(s[1..]));
    }
  }

  lemma {:induction false} PercentAllEncoded(bs: seq<Byte>)
    ensures IsEncoded(PercentAll(bs))
    ensures |PercentAll(bs)| == 3 * |bs|
  {
    if bs != [] {
      PercentAllEncoded(bs[1..]);
      var p := Percent(bs[0]);
      var rest := PercentAll(bs[1..]);
      assert (p + rest)[3..] == rest;
    }
  }

  lemma EncodedChar(c: char)
    ensures IsEncoded(EncodeChar(c))
    ensures 1 <= |EncodeChar(c)| <= 12
  {
    if IsUnreserved(c) {
      assert [c][1..] == [];
    } else {
      PercentAllEncoded(Utf8(c));
    }
  }

  lemma DropConcat(a: seq<char>, b: seq<char>, n: nat)
    requires n <= |a|
    ensures (a + b)[n..] == a[n..] + b
  {
    assert forall k | 0 <= k < |a| - n + |b| :: (a + b)[n..][k] == (a[n..] + b)[k];
  }

  lemma {:induction false} EncodedConcat(a: seq<char>, b: seq<char>)
    requires IsEncoded(a) && IsEncoded(b)
    ensures IsEncoded(a + b)
    decreases |a|
  {
    var ab := a + b;
    if a == [] {
      assert ab == b;
    } else if IsUnreserved(a[0]) && IsEncoded(a[1..]) {
      EncodedConcat(a[1..], b);
      assert ab[0] == a[0];
      DropConcat(a, b, 1);
    } else {
      assert |a| >= 3 && a[0] == '%' && IsUpperHex(a[1]) && IsUpperHex(a[2]) && IsEncoded(a[3..]);
      EncodedConcat(a[3..], b);
      assert ab[0] == '%' && ab[1] == a[1] && ab[2] == a[2];
      DropConcat(a, b, 3);
    }
  }

  // ---------------------------------------------------------------------
  // The inverse direction: reading an encoded string back into octets and
  // the octets back into scalar values. It is the partner that shows
  // encodeURIComponent loses no information.
  // ---------------------------------------------------------------------

  function Prepend<T>(p: seq<T>, o: Option<seq<T>>): Option<seq<T>>
  {
    match o
    case None => None
    case Some(x) => Some(p + x)
  }

  /** Reads unreserved characters and "%HH" triples back into octets. */
  function DecodeOctets(t: seq<char>): Option<seq<Byte>>
    decreases |t|
  {
    if t == [] then Some([])
    else if t[0] == '%' then
      if |t| >= 3 && IsUpperHex(t[1]) && IsUpperHex(t[2])
      then Prepend([HexValue(t[1]) * 16 + HexValue(t[2])], DecodeOctets(t[3..]))
      else None
    else if IsUnreserved(t[0]) then Prepend([t[0] as int], DecodeOctets(t[1..]))
    else None
  }

  predicate IsContinuation(b: Byte) {
    0x80 <= b < 0xC0
  }

  /**
   * The first scalar value of a strict UTF-8 octet sequence and how many
   * octets it takes; overlong forms, surrogates and values past U+10FFFF are
   * refused.
   */
  function DecodeScalar(bs: seq<Byte>): (r: Option<(char, nat)>)
    requires |bs| > 0
    ensures r.Some? ==> 1 <= r.value.1 <= |bs| && r.value.1 <= 4
  {
    var b0: int := bs[0];
    if b0 < 0x80 then Some((b0 as char, 1))
    else if 0xC0 <= b0 < 0xE0 then
      if |bs| >= 2 && IsContinuation(bs[1]) then
        var v: int := (b0 - 0xC0) * 64 + (bs[1] as int - 0x80);
        if 0x80 <= v then Some((v as char, 2)) else None
      else None
    else if 0xE0 <= b0 < 0xF0 then
      if |bs| >= 3 && IsContinuation(bs[1]) && IsContinuation(bs[2]) then
        var v: int := (b0 - 0xE0) * 4096 + (bs[1] as int - 0x80) * 64 + (bs[2] as int - 0x80);
        if 0x800 <= v && !(0xD800 <= v < 0xE000) then Some((v as char, 3)) else None
      else None
    else if 0xF0 <= b0 < 0xF8 then
      if |bs| >= 4 && IsContinuation(bs[1]) && IsContinuation(bs[2]) && IsContinuation(bs[3]) then
        var v: int := (b0 - 0xF0) * 262144 + (bs[1] as int - 0x80) * 4096 + (bs[2] as int - 0x80) * 64 + (bs[3] as int - 0x80);
        if 0x10000 <= v < 0x110000 then Some((v as char, 4)) else None
      else None
    else None
  }

  function Utf8Decode(bs: seq<Byte>): Option<seq<char>>
    decreases |bs|
  {
    if bs == [] then Some([])
    else
      match DecodeScalar(bs)
      case None => None
      case Some((c, n)) => Prepend([c], Utf8Decode(bs[n..]))
  }

  /** The inverse of Encode on its range. */
  function Decode(t: seq<char>): Option<seq<char>>
  {
    match DecodeOctets(t)
    case None => None
    case Some(bs) => Utf8Decode(bs)
  }

  lemma DecodePercent(b: Byte, t: seq<char>)
    ensures DecodeOctets(Percent(b) + t) == Prepend([b], DecodeOctets(t))
  {
    var u := Percent(b) + t;
    assert u[3..] == t;
    HexValueOfDigit(b / 16);
    HexValueOfDigit(b % 16);
    assert u[0] == '%' && IsUpperHex(u[1]) && IsUpperHex(u[2]);
    assert HexValue(u[1]) * 16 + HexValue(u[2]) == b;
  }

  lemma {:induction false} DecodePercentAll(bs: seq<Byte>, t: seq<char>)
    ensures DecodeOctets(PercentAll(bs) + t) == Prepend(bs, DecodeOctets(t))
    decreases |bs|
  {
    if bs == [] {
      assert PercentAll(bs) + t == t;
      if DecodeOctets(t).Some? {
        assert bs + DecodeOctets(t).value == DecodeOctets(t).value;
      }
    } else {
      var b := bs[0];
      var tail := PercentAll(bs[1..]);
      var rest := tail + t;
      assert PercentAll(bs) == Percent(b) + tail;
      assert PercentAll(bs) + t == Percent(b) + rest;
      DecodePercent(b, rest);
      DecodePercentAll(bs[1..], t);
      PrependTwice([b], bs[1..], DecodeOctets(t));
      assert [b] + bs[1..] == bs;
    }
  }

  lemma PrependTwice<T>(p: seq<T>, q: seq<T>, o: Option<seq<T>>)
    ensures Prepend(p, Prepend(q, o)) == Prepend(p + q, o)
  {
    if o.Some? {
      assert p + (q + o.value) == (p + q) + o.value;
    }
  }

  lemma DecodeEncodeChar(c: char, t: seq<char>)
    ensures DecodeOctets(EncodeChar(c) + t) == Prepend(Utf8(c), DecodeOctets(t))
  {
    if IsUnreserved(c) {
      var u := [c] + t;
      assert u[1..] == t;
    } else {
      DecodePercentAll(Utf8(c), t);
    }
  }

  lemma {:induction false} DecodeOctetsOfEncode(s: seq<char>)
    ensures DecodeOctets(Encode(s)) == Some(Utf8String(s))
  {
    if s != [] {
      DecodeEncodeChar(s[0], Encode(s[1..]));
      DecodeOctetsOfEncode(s[1..]);
    }
  }

  /** Base-64 digits of a value below 2^12 and below 2^18: splitting and rejoining is exact. */
  lemma SplitSixBits(v: int)
    requires 0 <= v
    ensures (v / 64) * 64 + v % 64 == v
    ensures (v / 4096) * 64 + (v / 64) % 64 == v / 64
    ensures (v / 262144) * 64 + (v / 4096) % 64 == v / 4096
  {
    var q := v / 64;
    assert v / 4096 == q / 64;
    var q2 := q / 64;
    assert v / 262144 == q2 / 64;
  }

  lemma DecodeTwoOctets(c: char, rest: seq<Byte>)
    requires 0x80 <= c as int < 0x800
    ensures DecodeScalar(Utf8(c) + rest) == Some((c, 2))
  {
    var v := c as int;
    var bs := Utf8(c) + rest;
    SplitSixBits(v);
    assert bs[0] - 0xC0 == v / 64;
    assert bs[1] - 0x80 == v % 64;
  }

  lemma DecodeThreeOctets(c: char, rest: seq<Byte>)
    requires 0x800 <= c as int < 0x10000
    ensures DecodeScalar(Utf8(c) + rest) == Some((c, 3))
  {
    var v := c as int;
    var bs := Utf8(c) + rest;
    SplitSixBits(v);
    assert bs[0] - 0xE0 == v / 4096;
    assert bs[1] - 0x80 == (v / 64) % 64;
    assert bs[2] - 0x80 == v % 64;
    assert (v / 4096) * 4096 + ((v / 64) % 64) * 64 + v % 64 == v;
  }

  lemma DecodeFourOctets(c: char, rest: seq<Byte>)
    requires 0x10000 <= c as int
    ensures DecodeScalar(Utf8(c) + rest) == Some((c, 4))
  {
    var v := c as int;
    var bs := Utf8(c) + rest;
    SplitSixBits(v);
    assert bs[0] - 0xF0 == v / 262144;
    assert bs[1] - 0x80 == (v / 4096) % 64;
    assert bs[2] - 0x80 == (v / 64) % 64;
    assert bs[3] - 0x80 == v % 64;
    assert (v / 262144) * 262144 + ((v / 4096) % 64) * 4096 == (v / 4096) * 4096;
    assert (v / 4096) * 4096 + ((v / 64) % 64) * 64 + v % 64 == v;
  }

  lemma DecodeScalarOfUtf8(c: char, rest: seq<Byte>)
    ensures DecodeScalar(Utf8(c) + rest) == Some((c, |Utf8(c)|))
  {
    var v := c as int;
    if v < 0x80 {
    } else if v < 0x800 {
      DecodeTwoOctets(c, rest);
    } else if v < 0x10000 {
      DecodeThreeOctets(c, rest);
    } else {
      DecodeFourOctets(c, rest);
    }
  }

  lemma {:induction false} Utf8DecodeOfUtf8String(s: seq<char>)
    ensures Utf8Decode(Utf8String(s)) == Some(s)
  {
    if s != [] {
      var bs := Utf8String(s);
      DecodeScalarOfUtf8(s[0], Utf8String(s[1..]));
      assert bs[|Utf8(s[0])|..] == Utf8String(s[1..]);
      Utf8DecodeOfUtf8String(s[1..]);
      assert [s[0]] + s[1..] == s;
    }
  }

  /** Decoding an encodeURIComponent result gives back the original string. */
  lemma DecodeOfEncode(s: seq<char>)
    ensures Decode(Encode(s)) == Some(s)
  {
    DecodeOctetsOfEncode(s);
    Utf8DecodeOfUtf8String(s);
  }

  /** Two different messages never encode to the same text. */
  lemma EncodeInjective(a: seq<char>, b: seq<char>)
    requires Encode(a) == Encode(b)
    ensures a == b
  {
    DecodeOfEncode(a);
    DecodeOfEncode(b);
  }

  // ---------------------------------------------------------------------
  // Character-level facts about the encoding.
  // ---------------------------------------------------------------------

  /** A character is copied through unchanged exactly when it is unreserved. */
  lemma EncodeCharKeepsExactlyUnreserved(c: char)
    ensures EncodeChar(c) == [c] <==> IsUnreserved(c)
  {
    if !IsUnreserved(c) {
      PercentAllEncoded(Utf8(c));
    }
  }

  /** Every other ASCII character becomes a single "%HH" of its code. */
  lemma EncodeAsciiChar(c: char)
    requires c as int < 0x80 && !IsUnreserved(c)
    ensures EncodeChar(c) == ['%', HexDigit(c as int / 16), HexDigit(c as int % 16)]
  {
    assert Utf8(c) == [c as int];
    assert PercentAll([c as int]) == Percent(c as int) + PercentAll([]);
  }

  lemma EncodeSingle(c: char)
    ensures Encode([c]) == EncodeChar(c)
  {
    assert [c][1..] == [];
  }

  lemma SpaceEncoding()
    ensures EncodeChar(' ') == "%20"
  {
    EncodeAsciiChar(' ');
  }

  /** The encoding works character by character. */
  lemma {:induction false} EncodeConcat(a: seq<char>, b: seq<char>)
    ensures Encode(a + b) == Encode(a) + Encode(b)
    decreases |a|
  {
    if a == [] {
      assert a + b == b;
    } else {
      assert (a + b)[0] == a[0];
      assert (a + b)[1..] == a[1..] + b;
      EncodeConcat(a[1..], b);
    }
  }

  /** An encoded text uses no character beyond the unreserved set, '%' and 0-9 A-F. */
  lemma {:induction false} EncodedAlphabet(t: seq<char>)
    requires IsEncoded(t)
    ensures forall i | 0 <= i < |t| :: IsUnreserved(t[i]) || t[i] == '%'
    decreases |t|
  {
    if t != [] {
      if IsUnreserved(t[0]) && IsEncoded(t[1..]) {
        EncodedAlphabet(t[1..]);
        assert forall i | 1 <= i < |t| :: t[i] == t[1..][i - 1];
      } else {
        EncodedAlphabet(t[3..]);
        assert forall i | 3 <= i < |t| :: t[i] == t[3..][i - 3];
      }
    }
  }

  /** So an encoded message can never end the query or start another parameter. */
  lemma EncodeHasNoQueryDelimiters(s: seq<char>)
    ensures '?' !in Encode(s) && '#' !in Encode(s) && '&' !in Encode(s) && '=' !in Encode(s)
  {
    var t := Encode(s);
    EncodeIsEncoded(s);
    EncodedAlphabet(t);
    forall i | 0 <= i < |t|
      ensures t[i] != '?' && t[i] != '#' && t[i] != '&' && t[i] != '='
    {
      assert IsUnreserved(t[i]) || t[i] == '%';
    }
  }

  /** A text made only of unreserved characters is its own encoding. */
  lemma {:induction false} EncodeUnreservedIdentity(s: seq<char>)
    requires forall i | 0 <= i < |s| :: IsUnreserved(s[i])
    ensures Encode(s) == s
  {
    if s != [] {
      EncodeUnreservedIdentity(s[1..]);
      assert [s[0]] + s[1..] == s;
    }
  }

  /**
   * "Hi there!" encodes as "Hi%20there!": the space is escaped, '!' is not.
   * The words are parameters so that the solver reasons about the pieces
   * instead of evaluating the encoder on the whole literal.
   */
  lemma HiThereExample(hi: seq<char>, there: seq<char>)
    requires hi == "Hi" && there == "there!"
    ensures Encode(hi + " " + there) == hi + "%20" + there
  {
    assert Encode(hi) == hi by { EncodeUnreservedIdentity(hi); }
    assert Encode(there) == there by { EncodeUnreservedIdentity(there); }
    assert Encode(" ") == "%20" by { EncodeSingle(' '); SpaceEncoding(); }
    EncodeConcat(hi, " ");
    EncodeConcat(hi + " ", there);
  }
}
