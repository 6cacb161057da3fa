/**
The checksum of the file formats (CRC-32, reflected polynomial 0xEDB88320), and
the one fact about it that retries rely on: equal-length strings with the same
checksum still collide behind any common prefix.

The 32-bit register is a vector of bits, least significant first.
*/
module Crc32 {
  import opened ByteCodec

  const WIDTH: nat := 32

  // A register value: a vector of WIDTH bits.
  predicate IsWord(x: seq<bool>) {
    |x| == WIDTH
  }

  function ToBits(n: nat, width: nat): (x: seq<bool>)
    ensures |x| == width
  {
    if width == 0 then [] else [n % 2 == 1] + ToBits(n / 2, width - 1)
  }

  function Word(n: nat): (x: seq<bool>)
    ensures IsWord(x)
  {
    ToBits(n, WIDTH)
  }

  const POLYNOMIAL: nat := 0xEDB8_8320
  const ALL_ONES: nat := 0xFFFF_FFFF

  function Pow2(n: nat): nat {
    if n == 0 then 1 else 2 * Pow2(n - 1)
  }

  function FromBits(x: seq<bool>): (n: nat)
    ensures n < Pow2(|x|)
  {
    if x == [] then 0 else (if x[0] then 1 else 0) + 2 * FromBits(x[1..])
  }

  function Xor(x: seq<bool>, y: seq<bool>): (z: seq<bool>)
    requires |x| == |y|
    ensures |z| == |x|
    ensures forall i :: 0 <= i < |x| ==> z[i] == (x[i] != y[i])
  {
    if x == [] then [] else [x[0] != y[0]] + Xor(x[1..], y[1..])
  }

  // One bit of the division: shift right, and subtract the polynomial if a one fell out.
  function Round(x: seq<bool>): (z: seq<bool>)
    requires IsWord(x)
    ensures IsWord(z)
  {
    if x[0] then Xor(x[1..] + [false], Word(POLYNOMIAL)) else x[1..] + [false]
  }

  function Rounds(x: seq<bool>, n: nat): (z: seq<bool>)
    requires IsWord(x)
    ensures IsWord(z)
  {
    if n == 0 then x else Round(Rounds(x, n - 1))
  }

  // The register after absorbing a byte string.
  function Register(start: seq<bool>, bytes: Bytes): (z: seq<bool>)
    requires IsWord(start)
    ensures IsWord(z)
  {
    if bytes == [] then start
    else Rounds(Xor(Register(start, bytes[..|bytes| - 1]), Word(bytes[|bytes| - 1])), 8)
  }

  function Checksum(bytes: Bytes): u32 {
    Pow2Values();
    FromBits(Xor(Register(Word(ALL_ONES), bytes), Word(ALL_ONES)))
  }

  lemma Pow2Values()
    ensures Pow2(8) == 256 && Pow2(24) == 0x100_0000 && Pow2(32) == 0x1_0000_0000
  {
    assert Pow2(8) == 256;
    assert Pow2(16) == 256 * Pow2(8);
    assert Pow2(24) == 256 * Pow2(16);
    assert Pow2(32) == 256 * Pow2(24);
  }

  lemma {:induction false} FromBitsInjective(x: seq<bool>, y: seq<bool>)
    requires |x| == |y| && FromBits(x) == FromBits(y)
    ensures x == y
  {
    if x != [] {
      FromBitsInjective(x[1..], y[1..]);
      assert x == [x[0]] + x[1..] && y == [y[0]] + y[1..];
    }
  }

  // ---- The division is linear ----

  lemma RoundLinear(x: seq<bool>, y: seq<bool>)
    requires IsWord(x) && IsWord(y)
    ensures Round(Xor(x, y)) == Xor(Round(x), Round(y))
  {
    hide Xor, Word;
    var z := Xor(x, y);
    forall i | 0 <= i < WIDTH ensures Round(z)[i] == Xor(Round(x), Round(y))[i] {
      assert i < 31 ==> z[i + 1] == (x[i + 1] != y[i + 1]);
    }
  }

  lemma {:induction false} RoundsLinear(x: seq<bool>, y: seq<bool>, n: nat)
    requires IsWord(x) && IsWord(y)
    ensures Rounds(Xor(x, y), n) == Xor(Rounds(x, n), Rounds(y, n))
  {
    hide Xor, Round;
    if n > 0 {
      RoundsLinear(x, y, n - 1);
      RoundLinear(Rounds(x, n - 1), Rounds(y, n - 1));
    }
  }

  // How a difference in the starting register travels through n bytes.
  function Carry(x: seq<bool>, n: nat): (z: seq<bool>)
    requires IsWord(x)
    ensures IsWord(z)
  {
    if n == 0 then x else Rounds(Carry(x, n - 1), 8)
  }

  lemma {:induction false} StartDifference(s: seq<bool>, t: seq<bool>, bytes: Bytes)
    requires IsWord(s) && IsWord(t)
    ensures Register(Xor(s, t), bytes) == Xor(Register(s, bytes), Carry(t, |bytes|))
  {
    hide Rounds, Word, Xor;
    if bytes != [] {
      var front, b := bytes[..|bytes| - 1], Word(bytes[|bytes| - 1]);
      StartDifference(s, t, front);
      assert Xor(Xor(Register(s, front), Carry(t, |front|)), b) == Xor(Xor(Register(s, front), b), Carry(t, |front|));
      RoundsLinear(Xor(Register(s, front), b), Carry(t, |front|), 8);
    }
  }

  lemma {:induction false} RegisterConcat(s: seq<bool>, a: Bytes, b: Bytes)
    requires IsWord(s)
    ensures Register(s, a + b) == Register(Register(s, a), b)
  {
    hide Rounds, Word, Xor;
    if b == [] {
      assert a + b == a;
    } else {
      RegisterConcat(s, a, b[..|b| - 1]);
      assert (a + b)[..|a + b| - 1] == a + b[..|b| - 1];
    }
  }

  lemma XorCancels(x: seq<bool>, y: seq<bool>)
    requires |x| == |y|
    ensures Xor(x, Xor(x, y)) == y && Xor(Xor(y, x), x) == y
  {
    hide Xor;
  }

  // Collisions of equal length survive a common prefix.
  lemma CollisionsKeepPrefix(p: Bytes, a: Bytes, b: Bytes)
    requires |a| == |b| && Checksum(a) == Checksum(b)
    ensures Checksum(p + a) == Checksum(p + b)
  {
    hide Register, Carry, Xor, Word;
    var ones := Word(ALL_ONES);
    var s := Register(ones, p);
    var d := Xor(ones, s);
    FromBitsInjective(Xor(Register(ones, a), ones), Xor(Register(ones, b), ones));
    XorCancels(ones, Register(ones, a));
    XorCancels(ones, Register(ones, b));
    RegisterConcat(ones, p, a);
    RegisterConcat(ones, p, b);
    XorCancels(ones, s);
    StartDifference(ones, d, a);
    StartDifference(ones, d, b);
  }

  // ---- A change it does not see ----

  // The generator polynomial itself, as it passes through the register: the leading bit, then the low 32.
  const FLIP: Bytes := [0x80, 0x20, 0x83, 0xB8, 0xED]
  const BLANK: Bytes := [0, 0, 0, 0, 0]

  lemma {:induction false} ZeroBits(width: nat)
    ensures forall i :: 0 <= i < width ==> !ToBits(0, width)[i]
  {
    if width > 0 {
      ZeroBits(width - 1);
    }
  }

  lemma {:induction false} HighBits(n: nat, k: nat, width: nat)
    requires n < Pow2(k)
    ensures ToBits(n, k + width) == ToBits(n, k) + ToBits(0, width)
  {
    if k > 0 {
      HighBits(n / 2, k - 1, width);
    } else {
      assert [] + ToBits(0, width) == ToBits(0, width);
    }
  }

  function Halved(n: nat, times: nat): nat {
    if times == 0 then n else Halved(n / 2, times - 1)
  }

  lemma {:induction false} LowBits(n: nat, k: nat, width: nat)
    ensures ToBits(n, k + width) == ToBits(n, k) + ToBits(Halved(n, k), width)
  {
    if k > 0 {
      LowBits(n / 2, k - 1, width);
    } else {
      assert [] + ToBits(n, width) == ToBits(n, width);
    }
  }

  // Zeros at the low end are shifted out without a subtraction.
  lemma {:induction false} ShiftOut(x: seq<bool>, n: nat)
    requires IsWord(x) && n <= WIDTH && forall i :: 0 <= i < n ==> !x[i]
    ensures Rounds(x, n) == x[n..] + ToBits(0, n)
  {
    hide Xor, Word;
    ZeroBits(n);
    if n > 0 {
      ShiftOut(x, n - 1);
      ZeroBits(n - 1);
      assert Rounds(x, n - 1)[0] == x[n - 1];
      assert Rounds(x, n) == Rounds(x, n - 1)[1..] + [false];
    }
  }

  lemma {:induction false} Placed(low: nat, high: nat, k: nat)
    requires low < Pow2(k)
    ensures ToBits(low + Pow2(k) * high, k) == ToBits(low, k) && Halved(low + Pow2(k) * high, k) == high
  {
    if k > 0 {
      var t := Pow2(k - 1) * high;
      assert Pow2(k) * high == 2 * t;
      Placed(low / 2, high, k - 1);
      assert (low + 2 * t) / 2 == low / 2 + t && (low + 2 * t) % 2 == low % 2;
    }
  }

  // A register that holds a number absorbs the number's low byte and holds the rest.
  lemma AbsorbLow(n: nat, low: byte, high: nat)
    requires n == low + 256 * high && high < 0x100_0000
    ensures Rounds(Xor(Word(n), Word(low)), 8) == Word(high)
  {
    hide Xor, Rounds, ToBits, Halved;
    Pow2Values();
    Placed(low, high, 8);
    LowBits(n, 8, 24);
    assert Word(low) == ToBits(low, 8) + ToBits(0, 24) by { ByteBits(low); }
    ZeroBits(24);
    var x := Xor(Word(n), Word(low));
    assert x[8..] == ToBits(high, 24);
    ShiftOut(x, 8);
    HighBits(high, 24, 8);
  }

  lemma ByteBits(low: byte)
    ensures Word(low) == ToBits(low, 8) + ToBits(0, 24)
  {
    hide ToBits;
    Pow2Values();
    HighBits(low, 8, 24);
  }

  lemma XorZero(x: seq<bool>)
    requires IsWord(x)
    ensures Xor(Word(0), x) == x && Xor(x, Word(0)) == x
  {
    hide Xor, ToBits;
    ZeroBits(WIDTH);
  }

  lemma Absorb(start: seq<bool>, bytes: Bytes, b: byte)
    requires IsWord(start)
    ensures Register(start, bytes + [b]) == Rounds(Xor(Register(start, bytes), Word(b)), 8)
  {
    hide Xor, Rounds, Word;
    assert (bytes + [b])[..|bytes|] == bytes;
  }

  lemma BlankRegister()
    ensures Rounds(Word(0), 8) == Word(0)
  {
    hide Xor, Rounds, ToBits;
    ZeroBits(WIDTH);
    ZeroBits(8);
    ShiftOut(Word(0), 8);
  }

  // One bit after seven zeros leaves the polynomial.
  lemma LeadingBit()
    ensures Rounds(Word(0x80), 8) == Word(POLYNOMIAL)
  {
    hide Xor, ToBits, Rounds;
    var x := Word(0x80);
    HighBit();
    ShiftOut(x, 7);
    ZeroBits(7);
    ZeroBits(WIDTH);
    var y := Rounds(x, 7);
    assert y[0] && forall i :: 1 <= i < WIDTH ==> !y[i];
    assert y[1..] + [false] == Word(0);
    XorZero(Word(POLYNOMIAL));
    OneMore(x, 7);
  }

  lemma HighBit()
    ensures var x := Word(0x80); forall i :: 0 <= i < WIDTH ==> (x[i] <==> i == 7)
  {
    hide Xor;
    Bit7(0x80);
    ByteBits(0x80);
    hide ToBits;
    ZeroBits(24);
  }

  lemma Bit7(n: nat)
    requires n == 128
    ensures ToBits(n, 8) == [false, false, false, false, false, false, false, true]
  {
    hide ToBits;
    EvenBit(64, 7);
    EvenBit(32, 6);
    EvenBit(16, 5);
    EvenBit(8, 4);
    EvenBit(4, 3);
    EvenBit(2, 2);
    EvenBit(1, 1);
    OneBit();
  }

  lemma EvenBit(half: nat, width: nat)
    ensures ToBits(2 * half, width + 1) == [false] + ToBits(half, width)
  {
  }

  lemma OneBit()
    ensures ToBits(1, 1) == [true]
  {
    assert ToBits(0, 0) == [];
  }

  lemma OneMore(x: seq<bool>, n: nat)
    requires IsWord(x)
    ensures Rounds(x, n + 1) == Round(Rounds(x, n))
  {
  }

  lemma FlipRegister()
    ensures Register(Word(0), FLIP) == Word(0)
  {
    hide Xor, Rounds, Register, Word, ToBits, Halved;
    var zero := Word(0);
    Absorb(zero, [], 0x80);
    Absorb(zero, [0x80], 0x20);
    Absorb(zero, [0x80, 0x20], 0x83);
    Absorb(zero, [0x80, 0x20, 0x83], 0xB8);
    Absorb(zero, [0x80, 0x20, 0x83, 0xB8], 0xED);
    assert Register(zero, []) == zero by { NothingAbsorbed(zero); }
    XorZero(Word(0x80));
    LeadingBit();
    AbsorbLow(0xEDB8_8320, 0x20, 0xED_B883);
    AbsorbLow(0xED_B883, 0x83, 0xEDB8);
    AbsorbLow(0xEDB8, 0xB8, 0xED);
    AbsorbLow(0xED, 0xED, 0);
    assert [] + [0x80] == [0x80];
    assert [0x80] + [0x20] == [0x80, 0x20];
    assert [0x80, 0x20] + [0x83] == [0x80, 0x20, 0x83];
    assert [0x80, 0x20, 0x83] + [0xB8] == [0x80, 0x20, 0x83, 0xB8];
    assert [0x80, 0x20, 0x83, 0xB8] + [0xED] == FLIP;
  }

  lemma NothingAbsorbed(x: seq<bool>)
    requires IsWord(x)
    ensures Register(x, []) == x
  {
  }

  lemma BlankUnseen()
    ensures Register(Word(0), BLANK) == Word(0)
  {
    hide Xor, Rounds, Register, Word;
    var zero := Word(0);
    Absorb(zero, [], 0);
    Absorb(zero, [0], 0);
    Absorb(zero, [0, 0], 0);
    Absorb(zero, [0, 0, 0], 0);
    Absorb(zero, [0, 0, 0, 0], 0);
    NothingAbsorbed(zero);
    XorZero(zero);
    BlankRegister();
    assert [] + [0] == [0] && [0] + [0] == [0, 0] && [0, 0] + [0] == [0, 0, 0];
    assert [0, 0, 0] + [0] == [0, 0, 0, 0] && [0, 0, 0, 0] + [0] == BLANK;
  }

  // Wherever five zero bytes stand, the checksum does not see them replaced by the polynomial.
  lemma FlipCollides(p: Bytes, q: Bytes)
    ensures Checksum(p + FLIP + q) == Checksum(p + BLANK + q)
  {
    hide Register, Carry, Xor, Word;
    var s := Register(Word(ALL_ONES), p);
    var ones := Word(ALL_ONES);
    RegisterConcat(ones, p, FLIP);
    RegisterConcat(ones, p, BLANK);
    RegisterConcat(ones, p + FLIP, q);
    RegisterConcat(ones, p + BLANK, q);
    XorZero(s);
    StartDifference(Word(0), s, FLIP);
    StartDifference(Word(0), s, BLANK);
    FlipRegister();
    BlankUnseen();
  }

  // ---- Values ----

  lemma {:induction false} NumberOfBits(n: nat, width: nat)
    requires n < Pow2(width)
    ensures FromBits(ToBits(n, width)) == n
  {
    if width > 0 {
      NumberOfBits(n / 2, width - 1);
      assert ToBits(n, width)[1..] == ToBits(n / 2, width - 1);
    }
  }

  lemma SameCancels(x: seq<bool>)
    requires IsWord(x)
    ensures Xor(x, x) == Word(0)
  {
    hide Xor, ToBits;
    ZeroBits(WIDTH);
  }

  // The register starts with ones, so four bytes of ones empty it.
  lemma OnesEmptyRegister(n: nat)
    requires n == 0xFFFF_FFFF
    ensures Register(Word(n), [0xFF, 0xFF, 0xFF, 0xFF]) == Word(0)
  {
    hide Xor, Rounds, Word, Register;
    AbsorbLow(n, 0xFF, 0xFF_FFFF);
    AbsorbLow(0xFF_FFFF, 0xFF, 0xFFFF);
    AbsorbLow(0xFFFF, 0xFF, 0xFF);
    AbsorbLow(0xFF, 0xFF, 0);
    NothingAbsorbed(Word(n));
    Absorb(Word(n), [], 0xFF);
    Absorb(Word(n), [0xFF], 0xFF);
    Absorb(Word(n), [0xFF, 0xFF], 0xFF);
    Absorb(Word(n), [0xFF, 0xFF, 0xFF], 0xFF);
    assert [] + [0xFF] == [0xFF] && [0xFF] + [0xFF] == [0xFF, 0xFF];
    assert [0xFF, 0xFF] + [0xFF] == [0xFF, 0xFF, 0xFF] && [0xFF, 0xFF, 0xFF] + [0xFF] == [0xFF, 0xFF, 0xFF, 0xFF];
  }

  // Two values that fix the starting register and the final complement.
  lemma KnownChecksums()
    ensures Checksum([]) == 0 && Checksum([0xFF, 0xFF, 0xFF, 0xFF]) == 0xFFFF_FFFF
  {
    hide Xor, Rounds, Word, Register, FromBits;
    Pow2Values();
    NothingAbsorbed(Word(ALL_ONES));
    SameCancels(Word(ALL_ONES));
    WordNumber(0);
    OnesEmptyRegister(ALL_ONES);
    XorZero(Word(ALL_ONES));
    WordNumber(ALL_ONES);
  }

  lemma WordNumber(n: nat)
    requires n <= 0xFFFF_FFFF
    ensures FromBits(Word(n)) == n
  {
    hide FromBits, ToBits, Pow2;
    Pow2Values();
    NumberOfBits(n, WIDTH);
  }
}
