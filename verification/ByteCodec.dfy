/**
Fixed-width integers and their byte forms.

Machine integers are modelled as bounded mathematical integers. `LE` and `BE`
are the little- and big-endian forms that the log, the segment files and the
wire protocol use; each is an exact inverse of its decoder.
*/
module ByteCodec {

  type byte = x: int | 0 <= x < 0x100
  type u8 = byte
  type u16 = x: int | 0 <= x < 0x1_0000
  type u32 = x: int | 0 <= x < 0x1_0000_0000
  type u64 = x: int | 0 <= x < 0x1_0000_0000_0000_0000
  type u128 = x: int | 0 <= x < 0x1_0000_0000_0000_0000_0000_0000_0000_0000
  type i64 = x: int | -0x8000_0000_0000_0000 <= x < 0x8000_0000_0000_0000
  type Bytes = seq<byte>

  const U32_MAX: nat := 0xFFFF_FFFF
  const I64_MIN: int := -0x8000_0000_0000_0000
  const I64_MAX: int := 0x7FFF_FFFF_FFFF_FFFF

  datatype Option<+T> = None | Some(value: T)

  // True when an `i64` can hold x, so that a checked operation returning x succeeds.
  predicate IsI64(x: int) {
    I64_MIN <= x <= I64_MAX
  }

  function Pow256(w: nat): (r: nat)
    ensures r > 0
  {
    if w == 0 then 1 else 256 * Pow256(w - 1)
  }

  lemma Pow256Values()
    ensures Pow256(1) == 0x100
    ensures Pow256(2) == 0x1_0000
    ensures Pow256(4) == 0x1_0000_0000
    ensures Pow256(8) == 0x1_0000_0000_0000_0000
    ensures Pow256(16) == 0x1_0000_0000_0000_0000_0000_0000_0000_0000
  {
    assert Pow256(3) == 0x100_0000;
    assert Pow256(5) == 0x100_0000_0000;
    assert Pow256(6) == 0x1_0000_0000_0000;
    assert Pow256(7) == 0x100_0000_0000_0000;
    assert Pow256(9) == 0x100_0000_0000_0000_0000;
    assert Pow256(10) == 0x1_0000_0000_0000_0000_0000;
    assert Pow256(11) == 0x100_0000_0000_0000_0000_0000;
    assert Pow256(12) == 0x1_0000_0000_0000_0000_0000_0000;
    assert Pow256(13) == 0x100_0000_0000_0000_0000_0000_0000;
    assert Pow256(14) == 0x1_0000_0000_0000_0000_0000_0000_0000;
    assert Pow256(15) == 0x100_0000_0000_0000_0000_0000_0000_0000;
  }

  // ---- Little endian ----

  function LE(n: nat, w: nat): (r: Bytes)
    ensures |r| == w
  {
    if w == 0 then [] else [n % 256] + LE(n / 256, w - 1)
  }

  function FromLE(s: Bytes): (n: nat)
    ensures n < Pow256(|s|)
  {
    if s == [] then 0 else
      var rest := FromLE(s[1..]);
      s[0] + 256 * rest
  }

  lemma {:induction false} FromLEOfLE(n: nat, w: nat)
    requires n < Pow256(w)
    ensures FromLE(LE(n, w)) == n
  {
    if w > 0 {
      assert n / 256 < Pow256(w - 1);
      FromLEOfLE(n / 256, w - 1);
      assert LE(n, w)[1..] == LE(n / 256, w - 1);
    }
  }

  lemma {:induction false} LEOfFromLE(s: Bytes)
    ensures LE(FromLE(s), |s|) == s
  {
    if s != [] {
      LEOfFromLE(s[1..]);
      var n := FromLE(s);
      assert n % 256 == s[0] && n / 256 == FromLE(s[1..]);
      assert [s[0]] + s[1..] == s;
    }
  }

  // Earlier bytes are the lower digits to base 256.
  lemma {:induction false} FromLEDigits(a: Bytes, b: Bytes)
    ensures FromLE(a + b) == FromLE(a) + Pow256(|a|) * FromLE(b)
  {
    if a == [] {
      assert a + b == b;
    } else {
      FromLEDigits(a[1..], b);
      assert (a + b)[1..] == a[1..] + b;
      Scaled(256, Pow256(|a| - 1), FromLE(b));
    }
  }

  lemma OneByte(x: byte)
    ensures FromLE([x]) == x && FromBE([x]) == x
  {
    assert [x][1..] == [] && [x][..0] == [];
  }

  lemma Scaled(a: nat, b: nat, c: nat)
    ensures a * (b * c) == (a * b) * c
  {
  }

  lemma TwoZeroBytes()
    ensures LE(0, 2) == [0, 0]
  {
    assert LE(0, 1) == [0] + LE(0, 0);
  }

  // ---- Reading a field ----

  function ReadLE(raw: Bytes, at: nat, w: nat): (n: nat)
    requires at + w <= |raw|
    ensures n < Pow256(w)
  {
    FromLE(raw[at..at + w])
  }

  function ReadU32(raw: Bytes, at: nat): (n: u32)
    requires at + 4 <= |raw|
    ensures n == FromLE(raw[at..at + 4])
  {
    Pow256Values();
    ReadLE(raw, at, 4)
  }

  function ReadU64(raw: Bytes, at: nat): (n: u64)
    requires at + 8 <= |raw|
    ensures n == FromLE(raw[at..at + 8])
  {
    Pow256Values();
    ReadLE(raw, at, 8)
  }

  function ReadU128(raw: Bytes, at: nat): (n: u128)
    requires at + 16 <= |raw|
    ensures n == FromLE(raw[at..at + 16])
  {
    Pow256Values();
    ReadLE(raw, at, 16)
  }

  // ---- Big endian ----

  function BE(n: nat, w: nat): (r: Bytes)
    ensures |r| == w
  {
    if w == 0 then [] else BE(n / 256, w - 1) + [n % 256]
  }

  function FromBE(s: Bytes): (n: nat)
    ensures n < Pow256(|s|)
  {
    if s == [] then 0 else
      var rest := FromBE(s[..|s| - 1]);
      256 * rest + s[|s| - 1]
  }

  lemma {:induction false} FromBEOfBE(n: nat, w: nat)
    requires n < Pow256(w)
    ensures FromBE(BE(n, w)) == n
  {
    if w > 0 {
      assert n / 256 < Pow256(w - 1);
      FromBEOfBE(n / 256, w - 1);
      assert BE(n, w)[..w - 1] == BE(n / 256, w - 1);
    }
  }

  lemma {:induction false} BEOfFromBE(s: Bytes)
    ensures BE(FromBE(s), |s|) == s
  {
    if s != [] {
      BEOfFromBE(s[..|s| - 1]);
      var n := FromBE(s);
      assert n % 256 == s[|s| - 1] && n / 256 == FromBE(s[..|s| - 1]);
      assert s[..|s| - 1] + [s[|s| - 1]] == s;
    }
  }

  // Earlier bytes are the higher digits to base 256.
  lemma {:induction false} FromBEDigits(a: Bytes, b: Bytes)
    ensures FromBE(a + b) == Pow256(|b|) * FromBE(a) + FromBE(b)
  {
    if b == [] {
      assert a + b == a;
    } else {
      FromBEDigits(a, b[..|b| - 1]);
      assert (a + b)[..|a + b| - 1] == a + b[..|b| - 1];
      Scaled(256, Pow256(|b| - 1), FromBE(a));
    }
  }

  // ---- Two's complement ----

  function ToUnsigned(i: i64): (u: u64) {
    if i >= 0 then i else i + 0x1_0000_0000_0000_0000
  }

  // The bits of a signed number are the number modulo 2 to the 64.
  lemma ToUnsignedIsModular(i: i64)
    ensures ToUnsigned(i) == i % 0x1_0000_0000_0000_0000
  {
    if i < 0 {
      assert i == -0x1_0000_0000_0000_0000 + (i + 0x1_0000_0000_0000_0000);
    }
  }

  function ToSigned(u: u64): (i: i64)
    ensures ToUnsigned(i) == u
  {
    if u <= 0x7FFF_FFFF_FFFF_FFFF then u else u - 0x1_0000_0000_0000_0000
  }

  // ---- Sequence facts used by every codec ----

  // Reading n bytes off the front of a known prefix.
  lemma TakeDrop(a: Bytes, b: Bytes)
    ensures (a + b)[..|a|] == a && (a + b)[|a|..] == b
  {
  }
}
