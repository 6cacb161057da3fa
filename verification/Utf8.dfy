/**
UTF-8, and the byte order on strings that sorted maps use.

`Decode` accepts exactly the well-formed byte strings: no overlong form, no surrogate, nothing
beyond U+10FFFF. Each well-formed byte string is the encoding of one string.
*/
module Utf8 {
  import opened ByteCodec

  function CharBytes(c: char): (r: Bytes)
    ensures 1 <= |r| <= 4
  {
    var n := c as int;
    if n < 0x80 then [n]
    else if n < 0x800 then [0xC0 + n / 0x40, 0x80 + n % 0x40]
    else if n < 0x1_0000 then [0xE0 + n / 0x1000, 0x80 + n / 0x40 % 0x40, 0x80 + n % 0x40]
    else [0xF0 + n / 0x4_0000, 0x80 + n / 0x1000 % 0x40, 0x80 + n / 0x40 % 0x40, 0x80 + n % 0x40]
  }

  function Encode(s: string): Bytes {
    if s == [] then [] else CharBytes(s[0]) + Encode(s[1..])
  }

  predicate Trailing(raw: Bytes, i: nat) {
    i < |raw| && 0x80 <= raw[i] < 0xC0
  }

  predicate ScalarFrom(n: int, least: nat) {
    least <= n < 0x11_0000 && !(0xD800 <= n < 0xE000)
  }

  // The scalar value of two, three or four bytes.
  function Scalar2(a: int, b: int): int {
    (a - 0xC0) * 0x40 + (b - 0x80)
  }

  function Scalar3(a: int, b: int, c: int): int {
    (a - 0xE0) * 0x1000 + (b - 0x80) * 0x40 + (c - 0x80)
  }

  function Scalar4(a: int, b: int, c: int, d: int): int {
    (a - 0xF0) * 0x4_0000 + (b - 0x80) * 0x1000 + (c - 0x80) * 0x40 + (d - 0x80)
  }

  function Scalar(n: int, least: nat, size: nat): (r: Option<(char, nat)>)
    ensures r.Some? <==> ScalarFrom(n, least)
  {
    if ScalarFrom(n, least) then Some((n as char, size)) else None
  }

  // The first character and the number of bytes it takes.
  function DecodeChar(raw: Bytes): (r: Option<(char, nat)>)
    ensures r.Some? ==> 1 <= r.value.1 <= |raw|
  {
    if raw == [] || 0x80 <= raw[0] < 0xC0 || 0xF8 <= raw[0] then None
    else if raw[0] < 0x80 then Some((raw[0] as char, 1))
    else if !Trailing(raw, 1) then None
    else if raw[0] < 0xE0 then Scalar(Scalar2(raw[0], raw[1]), 0x80, 2)
    else if !Trailing(raw, 2) then None
    else if raw[0] < 0xF0 then Scalar(Scalar3(raw[0], raw[1], raw[2]), 0x800, 3)
    else if !Trailing(raw, 3) then None
    else Scalar(Scalar4(raw[0], raw[1], raw[2], raw[3]), 0x1_0000, 4)
  }

  function Decode(raw: Bytes): Option<string> {
    if raw == [] then Some([])
    else match DecodeChar(raw)
      case None => None
      case Some((c, n)) =>
        match Decode(raw[n..])
        case None => None
        case Some(s) => Some([c] + s)
  }

  // Base-64 digits of a scalar value.
  lemma Digits(a: int, b: int, c: int, d: int)
    requires 0 <= a && 0 <= b < 0x40 && 0 <= c < 0x40 && 0 <= d < 0x40
    ensures var n := a * 0x4_0000 + b * 0x1000 + c * 0x40 + d;
            n / 0x4_0000 == a && n / 0x1000 % 0x40 == b && n / 0x40 % 0x40 == c && n % 0x40 == d
  {
    var n := a * 0x4_0000 + b * 0x1000 + c * 0x40 + d;
    assert n / 0x40 == a * 0x1000 + b * 0x40 + c;
    assert n / 0x1000 == a * 0x40 + b;
  }

  lemma FromDigits(n: int)
    requires 0 <= n
    ensures n == n / 0x4_0000 * 0x4_0000 + n / 0x1000 % 0x40 * 0x1000 + n / 0x40 % 0x40 * 0x40 + n % 0x40
    ensures n < 0x4_0000 ==> n / 0x1000 % 0x40 == n / 0x1000
    ensures n < 0x1000 ==> n / 0x40 % 0x40 == n / 0x40
  {
    var q := n / 0x40;
    assert n / 0x1000 == q / 0x40;
    assert n / 0x4_0000 == q / 0x40 / 0x40;
  }

  lemma CharRoundTrip(c: char, rest: Bytes)
    ensures DecodeChar(CharBytes(c) + rest) == Some((c, |CharBytes(c)|))
  {
    var n := c as int;
    FromDigits(n);
    var raw := CharBytes(c) + rest;
    if n < 0x80 {
    } else if n < 0x800 {
      assert Scalar2(raw[0], raw[1]) == n;
    } else if n < 0x1_0000 {
      assert Scalar3(raw[0], raw[1], raw[2]) == n;
    } else {
      assert Scalar4(raw[0], raw[1], raw[2], raw[3]) == n;
    }
  }

  lemma CharCanonical(raw: Bytes)
    requires DecodeChar(raw).Some?
    ensures var (c, n) := DecodeChar(raw).value; raw[..n] == CharBytes(c)
  {
    if raw[0] < 0x80 {
    } else if raw[0] < 0xE0 {
      Digits(0, 0, raw[0] - 0xC0, raw[1] - 0x80);
    } else if raw[0] < 0xF0 {
      Digits(0, raw[0] - 0xE0, raw[1] - 0x80, raw[2] - 0x80);
    } else {
      Digits(raw[0] - 0xF0, raw[1] - 0x80, raw[2] - 0x80, raw[3] - 0x80);
    }
  }

  lemma {:induction false} DecodeOfEncode(s: string)
    ensures Decode(Encode(s)) == Some(s)
  {
    hide CharBytes, DecodeChar;
    if s != [] {
      var rest := Encode(s[1..]);
      CharRoundTrip(s[0], rest);
      assert Encode(s)[|CharBytes(s[0])|..] == rest;
      DecodeOfEncode(s[1..]);
      assert s == [s[0]] + s[1..];
    }
  }

  lemma {:induction false} EncodeOfDecode(raw: Bytes)
    requires Decode(raw).Some?
    ensures Encode(Decode(raw).value) == raw
    decreases |raw|
  {
    hide CharBytes, DecodeChar;
    if raw != [] {
      var (c, n) := DecodeChar(raw).value;
      CharCanonical(raw);
      EncodeOfDecode(raw[n..]);
      var s := Decode(raw[n..]).value;
      assert ([c] + s)[1..] == s;
      assert raw == raw[..n] + raw[n..];
    }
  }

  // ---- Order ----

  predicate BytesBefore(a: Bytes, b: Bytes) {
    b != [] && (a == [] || a[0] < b[0] || (a[0] == b[0] && BytesBefore(a[1..], b[1..])))
  }

  // The order of `str`, which compares bytes.
  predicate Before(a: string, b: string) {
    BytesBefore(Encode(a), Encode(b))
  }

  lemma {:induction false} BytesOrder(a: Bytes, b: Bytes)
    ensures !(BytesBefore(a, b) && BytesBefore(b, a))
    ensures a == b || BytesBefore(a, b) || BytesBefore(b, a)
    ensures !BytesBefore(a, a)
    decreases |a| + |b|
  {
    if a != [] {
      if b != [] && a[0] == b[0] {
        BytesOrder(a[1..], b[1..]);
        assert a == [a[0]] + a[1..] && b == [b[0]] + b[1..];
      }
      BytesOrder(a[1..], []);
    }
  }

  lemma {:induction false} BytesTransitive(a: Bytes, b: Bytes, c: Bytes)
    requires BytesBefore(a, b) && BytesBefore(b, c)
    ensures BytesBefore(a, c)
  {
    if a != [] && a[0] == b[0] && b[0] == c[0] {
      BytesTransitive(a[1..], b[1..], c[1..]);
    }
  }

  // A strict total order: distinct strings have distinct encodings.
  lemma StringOrder(a: string, b: string)
    ensures !(Before(a, b) && Before(b, a)) && !Before(a, a)
    ensures a == b || Before(a, b) || Before(b, a)
  {
    hide Encode, Decode, BytesBefore;
    BytesOrder(Encode(a), Encode(b));
    DecodeOfEncode(a);
    DecodeOfEncode(b);
  }

  lemma BeforeTransitive(a: string, b: string, c: string)
    requires Before(a, b) && Before(b, c)
    ensures Before(a, c)
  {
    hide Encode, BytesBefore;
    BytesTransitive(Encode(a), Encode(b), Encode(c));
  }

  // The four forms of RFC 3629, section 3: how many bytes, which ranges, and the number they spell.
  lemma CharForms(c: char)
    ensures var n: int, r: seq<int> := c as int, CharBytes(c);
            && |r| == (if n <= 0x7F then 1 else if n <= 0x7FF then 2 else if n <= 0xFFFF then 3 else 4)
            && (|r| == 1 ==> r[0] == n)
            && (|r| == 2 ==> 0xC2 <= r[0] <= 0xDF && n == 64 * (r[0] - 0xC0) + (r[1] - 0x80))
            && (|r| == 3 ==> 0xE0 <= r[0] <= 0xEF && n == 4096 * (r[0] - 0xE0) + 64 * (r[1] - 0x80) + (r[2] - 0x80))
            && (|r| == 4 ==>
                  && 0xF0 <= r[0] <= 0xF4
                  && n == 262_144 * (r[0] - 0xF0) + 4096 * (r[1] - 0x80) + 64 * (r[2] - 0x80) + (r[3] - 0x80))
            && forall i :: 0 < i < |r| ==> 0x80 <= r[i] <= 0xBF
  {
    var n := c as int;
    FromDigits(n);
    LeadDigit(n);
  }

  // How large the leading digit of each form can be.
  lemma LeadDigit(n: int)
    requires 0 <= n < 0x11_0000
    ensures n < 0x800 ==> n / 0x40 < 0x20
    ensures 0x80 <= n ==> n / 0x40 >= 2
    ensures n < 0x1_0000 ==> n / 0x1000 < 0x10
    ensures n / 0x4_0000 <= 4
  {
  }
}
