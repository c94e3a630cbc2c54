/** What the frame checksum is: the remainder of the message by the generator polynomial of CRC-32,
    with the conventions that zlib adds to it (section 8 of RFC 1952). A polynomial over the field of
    two elements is a number whose bit e is the coefficient of x^e. */
module CrcPolynomial {
  import opened Bytes
  import opened Crc32

  // ------------------------------------------------------------------ specification

  /** x^32 + x^26 + x^23 + x^22 + x^16 + x^12 + x^11 + x^10 + x^8 + x^7 + x^5 + x^4 + x^2 + x + 1 */
  function Generator(): nat {
    Pow2(32) + Pow2(26) + Pow2(23) + Pow2(22) + Pow2(16) + Pow2(12) + Pow2(11) + Pow2(10) + Pow2(8) + Pow2(7)
    + Pow2(5) + Pow2(4) + Pow2(2) + Pow2(1) + Pow2(0)
  }

  /** The product of two polynomials. */
  function Times(q: nat, g: nat): nat {
    if q == 0 then 0 else Xor(if q % 2 == 1 then g else 0, 2 * Times(q / 2, g))
  }

  function Fold(r: nat): nat {
    if r < Pow2(32) then r else Xor(r, Generator())
  }

  /** Long division, from the highest coefficient down. */
  function Remainder(p: nat): nat {
    if p == 0 then 0 else Fold(2 * Remainder(p / 2) + p % 2)
  }

  /** The n low bits in opposite order. */
  function Reverse(c: nat, n: nat): (r: nat)
    ensures r < Pow2(n)
    decreases n, c
  {
    if n == 0 then 0 else (if c % 2 == 1 then Pow2(n - 1) else 0) + Reverse(c / 2, n - 1)
  }

  /** The message as a polynomial: the first bit sent, the lowest of the first byte, is its highest. */
  function Message(data: bytes): nat {
    if data == [] then 0 else 256 * Message(data[..|data| - 1]) + Reverse(data[|data| - 1] as nat, 8)
  }

  // ------------------------------------------------------------- exclusive or, doubled

  lemma XorDoubled(a: nat, b: nat)
    ensures Xor(2 * a, 2 * b) == 2 * Xor(a, b)
  {
    XorUnfold(2 * a, 2 * b, 0, a, b);
  }

  lemma {:induction false} DoubleXor(a: nat, b: nat, n: nat)
    ensures Double(Xor(a, b), n) == Xor(Double(a, n), Double(b, n))
  {
    if n > 0 {
      DoubleXor(a, b, n - 1);
      XorDoubled(Double(a, n - 1), Double(b, n - 1));
    }
  }

  lemma {:induction false} DoubleAdd(a: nat, m: nat, n: nat)
    ensures Double(Double(a, m), n) == Double(a, m + n)
  {
    if n > 0 {
      DoubleAdd(a, m, n - 1);
    }
  }

  lemma {:induction false} DoubleBound(a: nat, m: nat, n: nat)
    requires a < Pow2(m)
    ensures Double(a, n) < Pow2(m + n)
  {
    if n > 0 {
      DoubleBound(a, m, n - 1);
    }
  }

  // ------------------------------------------------------------------- the remainder

  lemma GeneratorBits()
    ensures Generator() == 0x1_04C1_1DB7 && Pow2(32) == 0x1_0000_0000
  {
    PowerOf32();
    assert Pow2(8) == 0x100;
    assert Pow2(16) == 0x100 * Pow2(8);
    assert Pow2(23) == 0x80 * Pow2(16);
    assert Pow2(26) == 8 * Pow2(23);
    assert Pow2(12) == 16 * Pow2(8);
  }

  /** Two numbers with bit n and nothing above it differ below it. */
  lemma {:induction false} XorTopBits(a: nat, b: nat, n: nat)
    requires Pow2(n) <= a < 2 * Pow2(n) && Pow2(n) <= b < 2 * Pow2(n)
    ensures Xor(a, b) < Pow2(n)
  {
    if n > 0 {
      XorTopBits(a / 2, b / 2, n - 1);
    } else {
      XorUnits(1);
    }
  }

  lemma FoldBound(r: nat)
    requires r < 2 * Pow2(32)
    ensures Fold(r) < Pow2(32)
  {
    hide Pow2, Generator, Xor;
    GeneratorBits();
    if r >= Pow2(32) {
      XorTopBits(r, Generator(), 32);
    }
  }

  lemma {:induction false} RemainderBound(p: nat)
    ensures Remainder(p) < Pow2(32)
  {
    hide Fold, Pow2;
    GeneratorBits();
    if p != 0 {
      RemainderBound(p / 2);
      FoldBound(2 * Remainder(p / 2) + p % 2);
    }
  }

  /** Remainder divides: what it leaves has no power from x^32 on, and differs from the dividend by a
      multiple of the generator. */
  lemma {:induction false} RemainderDivides(p: nat) returns (q: nat)
    ensures Xor(p, Remainder(p)) == Times(q, Generator()) && Remainder(p) < Pow2(32)
  {
    hide Pow2, Generator, Xor, Times, Remainder;
    RemainderBound(p);
    if p == 0 {
      q := 0;
      NothingLeft();
    } else {
      var h := RemainderDivides(p / 2);
      q := DivideOn(p, Remainder(p / 2), h);
      RemainderHalf(p);
    }
  }

  lemma NothingLeft()
    ensures Xor(0, Remainder(0)) == Times(0, Generator())
  {
    XorUnits(0);
  }

  /** One more coefficient. */
  lemma DivideOn(p: nat, r: nat, h: nat) returns (q: nat)
    requires Xor(p / 2, r) == Times(h, Generator())
    ensures Xor(p, Fold(2 * r + p % 2)) == Times(q, Generator())
  {
    hide Pow2, Generator, Xor, Times;
    var g, s := Generator(), 2 * r + p % 2;
    XorHalf(p, r);
    if s < Pow2(32) {
      q := 2 * h;
      TimesEven(h, g);
    } else {
      q := 2 * h + 1;
      TimesOdd(h, g);
      XorAssociates(p, s, g);
      XorCommutes(2 * Times(h, g), g);
    }
  }

  /** p and 2 * r + p % 2 differ by twice what their halves differ by. */
  lemma XorHalf(p: nat, r: nat)
    ensures Xor(p, 2 * r + p % 2) == 2 * Xor(p / 2, r)
  {
    XorUnfold(p, 2 * r + p % 2, 0, p / 2, r);
  }

  lemma TimesEven(h: nat, g: nat)
    ensures Times(2 * h, g) == 2 * Times(h, g)
  {
    XorUnits(2 * Times(h, g));
  }

  lemma TimesOdd(h: nat, g: nat)
    ensures Times(2 * h + 1, g) == Xor(g, 2 * Times(h, g))
  {
  }

  /** Below x^32 there is nothing to divide. */
  lemma {:induction false} SmallRemainder(p: nat)
    requires p < Pow2(32)
    ensures Remainder(p) == p
  {
    hide Pow2, Xor;
    if p != 0 {
      SmallRemainder(p / 2);
    }
  }

  // ---------------------------------------------------------------------- linearity

  lemma FoldXor(a: nat, b: nat)
    requires a < 2 * Pow2(32) && b < 2 * Pow2(32)
    ensures Fold(Xor(a, b)) == Xor(Fold(a), Fold(b))
  {
    hide Pow2, Generator, Xor;
    var g, top := Generator(), Pow2(32);
    if a >= top && b >= top {
      XorTopBits(a, b, 32);
      XorSwap(a, g, b, g);
      XorUnits(g);
      XorUnits(Xor(a, b));
    } else if a >= top {
      XorTopBit(a, b, 32);
      XorAssociates(a, b, g);
      XorCommutes(b, g);
      XorAssociates(a, g, b);
    } else if b >= top {
      XorCommutes(a, b);
      XorTopBit(b, a, 32);
      XorAssociates(a, b, g);
    } else {
      XorBound(a, b, 32);
    }
  }

  lemma {:induction false} RemainderXor(a: nat, b: nat)
    ensures Remainder(Xor(a, b)) == Xor(Remainder(a), Remainder(b))
    decreases a + b
  {
    hide Fold, Pow2, Xor, Remainder;
    if a == 0 || b == 0 {
      XorUnits(a);
      XorUnits(b);
      XorUnits(Remainder(a));
      XorUnits(Remainder(b));
      NoRemainder();
    } else {
      RemainderXor(a / 2, b / 2);
      XorHalves(a, b);
      RemainderBound(a / 2);
      RemainderBound(b / 2);
      RemainderHalf(a);
      RemainderHalf(b);
      RemainderHalf(Xor(a, b));
      var r, s := Remainder(a / 2), Remainder(b / 2);
      FoldXor(2 * r + a % 2, 2 * s + b % 2);
      XorWithBits(r, s, a, b);
    }
  }

  lemma XorWithBits(r: nat, s: nat, a: nat, b: nat)
    ensures Xor(2 * r + a % 2, 2 * s + b % 2) == 2 * Xor(r, s) + Xor(a, b) % 2
  {
    hide Xor;
    XorHalves(a, b);
    Parity(a, b);
    Halves(2 * r + a % 2, a % 2, r);
    Halves(2 * s + b % 2, b % 2, s);
    Parity(2 * r + a % 2, 2 * s + b % 2);
    XorUnfold(2 * r + a % 2, 2 * s + b % 2, Xor(a, b) % 2, r, s);
  }

  lemma NoRemainder()
    ensures Remainder(0) == 0
  {
  }

  lemma RemainderHalf(p: nat)
    ensures Remainder(p) == Fold(2 * Remainder(p / 2) + p % 2)
  {
    hide Xor, Generator, Pow2;
    GeneratorBits();
  }

  /** Multiplication by x, n times. */
  function Shifted(r: nat, n: nat): nat {
    if n == 0 then r else Fold(2 * Shifted(r, n - 1))
  }

  lemma {:induction false} ShiftedBound(r: nat, n: nat)
    requires r < Pow2(32)
    ensures Shifted(r, n) < Pow2(32)
  {
    hide Fold, Pow2;
    if n > 0 {
      ShiftedBound(r, n - 1);
      FoldBound(2 * Shifted(r, n - 1));
    }
  }

  lemma {:induction false} ShiftedXor(a: nat, b: nat, n: nat)
    requires a < Pow2(32) && b < Pow2(32)
    ensures Shifted(Xor(a, b), n) == Xor(Shifted(a, n), Shifted(b, n))
  {
    hide Fold, Pow2, Xor;
    if n > 0 {
      ShiftedXor(a, b, n - 1);
      ShiftedBound(a, n - 1);
      ShiftedBound(b, n - 1);
      XorDoubled(Shifted(a, n - 1), Shifted(b, n - 1));
      FoldXor(2 * Shifted(a, n - 1), 2 * Shifted(b, n - 1));
    }
  }

  lemma {:induction false} RemainderShifts(p: nat, n: nat)
    ensures Remainder(Double(p, n)) == Shifted(Remainder(p), n)
  {
    hide Fold;
    if n > 0 {
      RemainderShifts(p, n - 1);
      RemainderHalf(Double(p, n));
    }
  }

  // ------------------------------------------------------------- the reversed register

  lemma {:induction false} ReverseXor(a: nat, b: nat, n: nat)
    ensures Reverse(Xor(a, b), n) == Xor(Reverse(a, n), Reverse(b, n))
  {
    hide Pow2, Xor;
    if n == 0 {
      XorUnits(0);
    } else {
      XorHalves(a, b);
      ReverseXor(a / 2, b / 2, n - 1);
      TopBits(a % 2 == 1, b % 2 == 1, Reverse(a / 2, n - 1), Reverse(b / 2, n - 1), n - 1);
    }
  }

  /** Bit n, where it stands above n bits, goes through an exclusive or on its own. */
  lemma TopBits(p: bool, q: bool, a: nat, b: nat, n: nat)
    requires a < Pow2(n) && b < Pow2(n)
    ensures Xor((if p then Pow2(n) else 0) + a, (if q then Pow2(n) else 0) + b)
         == (if p != q then Pow2(n) else 0) + Xor(a, b)
  {
    hide Xor, Pow2;
    TopAdds(a, n);
    TopAdds(b, n);
    XorBound(a, b, n);
    TopAdds(Xor(a, b), n);
    XorUnits(Pow2(n));
    XorUnits(Xor(a, b));
    if p && q {
      XorSwap(a, Pow2(n), b, Pow2(n));
    } else if p {
      XorAssociates(a, Pow2(n), b);
      XorCommutes(Pow2(n), b);
      XorAssociates(a, b, Pow2(n));
    } else if q {
      XorAssociates(a, b, Pow2(n));
    }
  }

  lemma {:induction false} TopAdds(a: nat, n: nat)
    requires a < Pow2(n)
    ensures Xor(a, Pow2(n)) == Pow2(n) + a
  {
    hide Xor;
    if n == 0 {
      XorUnits(1);
    } else {
      TopAdds(a / 2, n - 1);
      XorUnfold(a, Pow2(n), a % 2, a / 2, Pow2(n - 1));
    }
  }

  lemma {:induction false} ReverseShort(x: nat, n: nat, k: nat)
    requires x < Pow2(n)
    ensures Reverse(x, n + k) == Double(Reverse(x, n), k)
    decreases n
  {
    if n == 0 {
      ReverseZero(k);
      DoubleZero(k);
    } else {
      ReverseShort(x / 2, n - 1, k);
      DoublePower(n - 1, k);
      DoubleSum(if x % 2 == 1 then Pow2(n - 1) else 0, Reverse(x / 2, n - 1), k);
      DoubleZero(k);
    }
  }

  lemma {:induction false} ReverseZero(n: nat)
    ensures Reverse(0, n) == 0
  {
    if n > 0 {
      ReverseZero(n - 1);
    }
  }

  lemma {:induction false} DoubleZero(n: nat)
    ensures Double(0, n) == 0
  {
    if n > 0 {
      DoubleZero(n - 1);
    }
  }

  lemma {:induction false} DoublePower(m: nat, n: nat)
    ensures Double(Pow2(m), n) == Pow2(m + n)
  {
    if n > 0 {
      DoublePower(m, n - 1);
    }
  }

  lemma {:induction false} DoubleSum(a: nat, b: nat, n: nat)
    ensures Double(a + b, n) == Double(a, n) + Double(b, n)
  {
    if n > 0 {
      DoubleSum(a, b, n - 1);
    }
  }

  lemma {:induction false} ReverseSplit(x: nat, k: nat, n: nat)
    ensures Reverse(x, k + n) == Double(Reverse(x, k), n) + Reverse(Halve(x, k), n)
  {
    if k == 0 {
      DoubleZero(n);
    } else {
      ReverseSplit(x / 2, k - 1, n);
      DoublePower(k - 1, n);
      DoubleZero(n);
      DoubleSum(if x % 2 == 1 then Pow2(k - 1) else 0, Reverse(x / 2, k - 1), n);
    }
  }

  lemma DoubleBytes(x: nat)
    ensures Double(x, 8) == 0x100 * x && Double(x, 16) == 0x1_0000 * x && Double(x, 24) == 0x100_0000 * x
  {
    hide Double;
    DoubleEight(x);
    DoubleAdd(x, 8, 8);
    DoubleEight(0x100 * x);
    DoubleAdd(x, 16, 8);
    DoubleEight(0x1_0000 * x);
  }

  lemma ReverseBit(x: nat, n: nat, bit: nat, h: nat)
    requires x == bit + 2 * h && bit < 2
    ensures Reverse(x, n + 1) == Pow2(n) * bit + Reverse(h, n)
  {
    hide Pow2;
    Halves(x, bit, h);
    if bit == 0 {
    } else {
      assert Pow2(n) * bit == Pow2(n);
    }
  }

  lemma PowersFrom(n: nat)
    ensures Pow2(n + 1) == 2 * Pow2(n) && Pow2(n + 2) == 4 * Pow2(n) && Pow2(n + 3) == 8 * Pow2(n)
  {
  }

  lemma ReverseFour(x: nat, n: nat, a: nat, b: nat, c: nat, d: nat, h: nat)
    requires x == a + 2 * (b + 2 * (c + 2 * (d + 2 * h))) && a < 2 && b < 2 && c < 2 && d < 2
    ensures Reverse(x, n + 4) == 8 * Pow2(n) * a + 4 * Pow2(n) * b + 2 * Pow2(n) * c + Pow2(n) * d + Reverse(h, n)
  {
    hide Pow2, Reverse;
    var x1, x2, x3 := b + 2 * (c + 2 * (d + 2 * h)), c + 2 * (d + 2 * h), d + 2 * h;
    ReverseBit(x, n + 3, a, x1);
    ReverseBit(x1, n + 2, b, x2);
    ReverseBit(x2, n + 1, c, x3);
    ReverseBit(x3, n, d, h);
    PowersFrom(n);
  }

  lemma ReverseEight(x: nat, a: nat, b: nat, c: nat, d: nat, e: nat, f: nat, g: nat, h: nat, rest: nat)
    requires x == a + 2 * b + 4 * c + 8 * d + 16 * (e + 2 * f + 4 * g + 8 * h + 16 * rest)
    requires a < 2 && b < 2 && c < 2 && d < 2 && e < 2 && f < 2 && g < 2 && h < 2
    ensures Reverse(x, 8) == 128 * a + 64 * b + 32 * c + 16 * d + 8 * e + 4 * f + 2 * g + h
  {
    hide Pow2, Reverse;
    ReverseFour(x, 4, a, b, c, d, e + 2 * f + 4 * g + 8 * h + 16 * rest);
    ReverseFour(e + 2 * f + 4 * g + 8 * h + 16 * rest, 0, e, f, g, h, rest);
    SmallPowers();
    NothingReversed(rest);
  }

  lemma SmallPowers()
    ensures Pow2(4) == 16 && Pow2(0) == 1
  {
  }

  lemma NothingReversed(x: nat)
    ensures Reverse(x, 0) == 0
  {
  }

  lemma BytesReversed()
    ensures Reverse(0xEDB8_8320, 8) == 0x04 && Reverse(0xED_B883, 8) == 0xC1
    ensures Reverse(0xEDB8, 8) == 0x1D && Reverse(0xED, 8) == 0xB7
  {
    hide Reverse;
    ReverseEight(0xEDB8_8320, 0, 0, 0, 0, 0, 1, 0, 0, 0xED_B883);
    ReverseEight(0xED_B883, 1, 1, 0, 0, 0, 0, 0, 1, 0xEDB8);
    ReverseEight(0xEDB8, 0, 0, 0, 1, 1, 1, 0, 1, 0xED);
    ReverseEight(0xED, 1, 0, 1, 1, 0, 1, 1, 1, 0);
  }

  /** The reversed register holds the generator where the register holds its own constant. */
  lemma PolyReversed()
    ensures Pow2(32) + Reverse(POLY, 32) == Generator()
  {
    hide Reverse, Double, Halve, Pow2, Generator;
    GeneratorBits();
    BytesReversed();
    ReverseSplit(POLY, 8, 24);
    HalveEight(POLY);
    DoubleBytes(0x04);
    ReverseSplit(0xED_B883, 8, 16);
    HalveEight(0xED_B883);
    DoubleBytes(0xC1);
    ReverseSplit(0xEDB8, 8, 8);
    HalveEight(0xEDB8);
    DoubleBytes(0x1D);
  }

  /** A bit step is a multiplication by x in the reversed register. */
  lemma BitStepShifts(c: word)
    ensures Reverse(BitStep(c), 32) == Fold(2 * Reverse(c, 32))
  {
    hide Xor, Pow2, Generator;
    GeneratorBits();
    PowerOf32();
    ReverseShort(c / 2, 31, 1);
    ReverseDown(c);
    if c % 2 == 1 {
      ReverseXor(POLY, c / 2, 32);
      PolyReversed();
      TopBits(true, true, Reverse(c / 2, 32), Reverse(POLY, 32), 32);
      XorCommutes(Reverse(c / 2, 32), Reverse(POLY, 32));
    }
  }

  lemma ReverseDown(c: word)
    ensures Reverse(c, 32) == (if c % 2 == 1 then Pow2(31) else 0) + Reverse(c / 2, 31)
    ensures Double(Reverse(c / 2, 31), 1) == 2 * Reverse(c / 2, 31) && Pow2(32) == 2 * Pow2(31)
  {
    hide Xor;
  }

  lemma {:induction false} BitsShift(c: word, n: nat)
    ensures Reverse(Bits(c, n), 32) == Shifted(Reverse(c, 32), n)
  {
    hide Fold, Reverse, BitStep;
    if n > 0 {
      BitsShift(c, n - 1);
      BitStepShifts(Bits(c, n - 1));
    }
  }

  // -------------------------------------------------------------------- the checksum

  /** The message behind 32 ones, with 32 zeros appended: 32 ones in front of the message flip its
      first 32 coefficients. */
  function Dividend(data: bytes): nat {
    Xor(Double(Message(data), 32), Double(ONES, 8 * |data|))
  }

  lemma DividendSnoc(data: bytes, b: byte)
    ensures Dividend(data + [b]) == Xor(Double(Dividend(data), 8), Double(Reverse(b as nat, 8), 32))
  {
    hide Xor, Reverse, Double, Pow2;
    var m, r := Message(data), Reverse(b as nat, 8);
    assert (data + [b])[..|data|] == data;
    EightBits();
    DoubleEight(m);
    XorDisjoint(r, m, 8);
    XorCommutes(r, Double(m, 8));
    DoubleXor(Double(m, 8), r, 32);
    DoubleAdd(m, 8, 32);
    DoubleAdd(m, 32, 8);
    DoubleXor(Double(m, 32), Double(ONES, 8 * |data|), 8);
    DoubleAdd(ONES, 8 * |data|, 8);
    var x, y, z := Double(m, 40), Double(r, 32), Double(ONES, 8 * |data| + 8);
    XorAssociates(x, y, z);
    XorCommutes(y, z);
    XorAssociates(x, z, y);
  }

  lemma EightBits()
    ensures Pow2(8) == 256
  {
  }

  lemma ByteShifts(c: word, b: byte)
    ensures Reverse(ByteStep(c, b), 32) == Shifted(Xor(Reverse(c, 32), Double(Reverse(b as nat, 8), 24)), 8)
  {
    hide Reverse, Bits, Xor, Shifted, Double, Pow2;
    EightBits();
    BitsShift(XorWord(c, b as nat), 8);
    ReverseXor(c, b as nat, 32);
    ReverseShort(b as nat, 8, 24);
  }

  /** The register is the remainder of what has been read. */
  lemma {:induction false} UpdateIsRemainder(data: bytes)
    ensures Reverse(Update(ONES, data), 32) == Remainder(Dividend(data))
    decreases |data|
  {
    hide Reverse, Remainder, Dividend, Shifted, Xor, Double, ByteStep, Pow2;
    if data == [] {
      NothingRead();
    } else {
      var front, b := data[..|data| - 1], data[|data| - 1];
      assert data == front + [b];
      UpdateIsRemainder(front);
      var p, r := Dividend(front), Reverse(b as nat, 8);
      DividendSnoc(front, b);
      RemainderXor(Double(p, 8), Double(r, 32));
      RemainderShifts(p, 8);
      DoubleBound(r, 8, 24);
      SmallRemainder(Double(r, 24));
      RemainderShifts(Double(r, 24), 8);
      DoubleAdd(r, 24, 8);
      RemainderBound(p);
      ShiftedXor(Remainder(p), Double(r, 24), 8);
      ByteShifts(Update(ONES, front), b);
    }
  }

  lemma NothingRead()
    ensures Reverse(Update(ONES, []), 32) == Remainder(Dividend([]))
  {
    hide Xor, Pow2, Reverse, Remainder, Double;
    PowerOf32();
    XorUnits(ONES);
    SmallRemainder(ONES);
    DoubleZero(32);
    OnesReversed(32);
    NotDoubled(ONES);
  }

  lemma NotDoubled(x: nat)
    ensures Double(x, 0) == x
  {
  }

  lemma {:induction false} OnesReversed(n: nat)
    ensures Reverse(Pow2(n) - 1, n) == Pow2(n) - 1
  {
    if n > 0 {
      Halves(Pow2(n) - 1, 1, Pow2(n - 1) - 1);
      OnesReversed(n - 1);
    }
  }

  /** The checksum of data, complemented and read from its lowest bit up, is the remainder by the
      generator of the data polynomial times x^32, with 32 ones in front of the data. */
  lemma CrcIsRemainder(data: bytes)
    ensures Reverse(0xFFFF_FFFF - Crc(data), 32) == Remainder(Dividend(data))
  {
    hide Reverse, Remainder, Dividend, Update;
    UpdateIsRemainder(data);
  }
}
