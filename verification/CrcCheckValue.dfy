/** The check value of CRC-32, the checksum of the nine digits "123456789", bit step by bit step. Each odd
    step names its register by runs of bits, so that flipping the constant's ones is linear arithmetic. */
module CrcCheckValue {
  import opened Bytes
  import opened Crc32

  /** The n low bits, against n ones or n zeros. */
  lemma {:induction false} XorRun(p: nat, q: nat, n: nat, w: nat, f: nat)
    requires w == Pow2(n) && f < w
    ensures Xor(w * p + (w - 1), w * q + f) == w * Xor(p, q) + (w - 1 - f)
    ensures Xor(w * p, w * q + f) == w * Xor(p, q) + f
  {
    hide Xor;
    if n > 0 {
      var v := Pow2(n - 1);
      XorRun(p, q, n - 1, v, f / 2);
      Doubled(v, w, p, v * p);
      Doubled(v, w, q, v * q);
      Doubled(v, w, Xor(p, q), v * Xor(p, q));
      XorBit(v * p + (v - 1), v * q + f / 2, 1, f % 2);
      XorBit(v * p, v * q + f / 2, 0, f % 2);
    }
  }

  lemma Doubled(v: nat, w: nat, x: nat, vx: nat)
    requires w == 2 * v && vx == v * x
    ensures w * x == 2 * vx
  {
  }

  lemma XorBit(p: nat, q: nat, x: nat, y: nat)
    requires x < 2 && y < 2
    ensures Xor(2 * p + x, 2 * q + y) == 2 * Xor(p, q) + if x == y then 0 else 1
  {
    hide Xor;
    XorUnfold(2 * p + x, 2 * q + y, if x == y then 0 else 1, p, q);
  }

  lemma RunPowers()
    ensures Pow2(1) == 2 && Pow2(2) == 4 && Pow2(3) == 8 && Pow2(5) == 32
  {
  }

  /** Where the constant has ones, it complements a run of bits; a is the highest run. */
  lemma FlipHigh(h: nat, a: nat, b: nat, c: nat, d: nat, e: nat, f: nat, g: nat, i: nat)
    requires a < 8 && b < 2 && c < 4 && d < 2 && e < 4 && f < 2 && g < 8 && i < 8
    requires h == 0x2000 * a + 0x1000 * b + 0x400 * c + 0x200 * d + 0x80 * e + 0x40 * f + 0x8 * g + i
    ensures Xor(0xEDB8, h) == 0x2000 * (7 - a) + 0x1000 * b + 0x400 * (3 - c) + 0x200 * d + 0x80 * (3 - e) + 0x40 * f
      + 0x8 * (7 - g) + i
  {
    hide Xor, Pow2;
    RunPowers();
    XorUnits(0);
    XorRun(0, 0, 3, 8, a);
    XorRun(0x7, a, 1, 2, b);
    var h1 := 2 * a + b;
    XorRun(0xE, h1, 2, 4, c);
    var h2 := 4 * h1 + c;
    XorRun(0x3B, h2, 1, 2, d);
    var h3 := 2 * h2 + d;
    XorRun(0x76, h3, 2, 4, e);
    var h4 := 4 * h3 + e;
    XorRun(0x1DB, h4, 1, 2, f);
    var h5 := 2 * h4 + f;
    XorRun(0x3B6, h5, 3, 8, g);
    var h6 := 8 * h5 + g;
    XorRun(0x1DB7, h6, 3, 8, i);
  }

  lemma Flip(h: word, a: nat, b: nat, c: nat, d: nat, e: nat, f: nat, g: nat, i: nat,
    j: nat, k: nat, l: nat, m: nat, n: nat, o: nat)
    requires a < 8 && b < 2 && c < 4 && d < 2 && e < 4 && f < 2 && g < 8
    requires i < 8 && j < 2 && k < 32 && l < 4 && m < 4 && n < 2 && o < 32
    requires h == 0x2000_0000 * a + 0x1000_0000 * b + 0x400_0000 * c + 0x200_0000 * d + 0x80_0000 * e
      + 0x40_0000 * f + 0x8_0000 * g + 0x1_0000 * i + 0x8000 * j + 0x400 * k + 0x100 * l + 0x40 * m
      + 0x20 * n + o
    ensures Xor(POLY, h) == 0x2000_0000 * (7 - a) + 0x1000_0000 * b + 0x400_0000 * (3 - c) + 0x200_0000 * d
      + 0x80_0000 * (3 - e) + 0x40_0000 * f + 0x8_0000 * (7 - g) + 0x1_0000 * i + 0x8000 * (1 - j)
      + 0x400 * k + 0x100 * (3 - l) + 0x40 * m + 0x20 * (1 - n) + o
  {
    hide Xor, Pow2;
    RunPowers();
    var h7 := 0x2000 * a + 0x1000 * b + 0x400 * c + 0x200 * d + 0x80 * e + 0x40 * f + 0x8 * g + i;
    FlipHigh(h7, a, b, c, d, e, f, g, i);
    XorRun(0xEDB8, h7, 1, 2, j);
    var h8 := 2 * h7 + j;
    XorRun(0x1_DB71, h8, 5, 32, k);
    var h9 := 32 * h8 + k;
    XorRun(0x3B_6E20, h9, 2, 4, l);
    var h10 := 4 * h9 + l;
    XorRun(0xED_B883, h10, 2, 4, m);
    var h11 := 4 * h10 + m;
    XorRun(0x3B6_E20C, h11, 1, 2, n);
    var h12 := 2 * h11 + n;
    XorRun(0x76D_C419, h12, 5, 32, o);
  }

  lemma BitsFlip(x: word, t: nat, h: word, a: nat, b: nat, c: nat, d: nat, e: nat, f: nat, g: nat, i: nat,
    j: nat, k: nat, l: nat, m: nat, n: nat, o: nat)
    requires Bits(x, t) == 2 * h + 1
    requires a < 8 && b < 2 && c < 4 && d < 2 && e < 4 && f < 2 && g < 8
    requires i < 8 && j < 2 && k < 32 && l < 4 && m < 4 && n < 2 && o < 32
    requires h == 0x2000_0000 * a + 0x1000_0000 * b + 0x400_0000 * c + 0x200_0000 * d + 0x80_0000 * e
      + 0x40_0000 * f + 0x8_0000 * g + 0x1_0000 * i + 0x8000 * j + 0x400 * k + 0x100 * l + 0x40 * m
      + 0x20 * n + o
    ensures Bits(x, t + 1) == 0x2000_0000 * (7 - a) + 0x1000_0000 * b + 0x400_0000 * (3 - c) + 0x200_0000 * d
      + 0x80_0000 * (3 - e) + 0x40_0000 * f + 0x8_0000 * (7 - g) + 0x1_0000 * i + 0x8000 * (1 - j)
      + 0x400 * k + 0x100 * (3 - l) + 0x40 * m + 0x20 * (1 - n) + o
  {
    hide Xor, Pow2;
    Flip(h, a, b, c, d, e, f, g, i, j, k, l, m, n, o);
  }

  lemma BitsHalve(x: word, t: nat, h: word)
    requires Bits(x, t) == 2 * h
    ensures Bits(x, t + 1) == h
  {
    hide Xor;
  }

  lemma BitsStart(x: word)
    ensures Bits(x, 0) == x
  {
  }

  /** A digit in ASCII changes the eight low bits, p to w: its own are 0, 0, 1, 1 and those of its value. */
  lemma XorDigit(c: word, high: nat, p: nat, q: nat, r: nat, s: nat, t: nat, u: nat, v: nat, w: nat,
    d: nat, e: nat, f: nat, g: nat)
    requires p < 2 && q < 2 && r < 2 && s < 2 && t < 2 && u < 2 && v < 2 && w < 2 && d < 2 && e < 2 && f < 2 && g < 2
    requires c == 256 * high + 128 * p + 64 * q + 32 * r + 16 * s + 8 * t + 4 * u + 2 * v + w
    ensures Xor(c, 0x30 + 8 * d + 4 * e + 2 * f + g)
         == 256 * high + 128 * p + 64 * q + 32 * (1 - r) + 16 * (1 - s) + 8 * (if t == d then 0 else 1)
          + 4 * (if u == e then 0 else 1) + 2 * (if v == f then 0 else 1) + (if w == g then 0 else 1)
  {
    hide Xor;
    var h := 16 * high + 8 * p + 4 * q + 2 * r + s;
    DigitHigh(high, p, q, r, s);
    DigitLow(h, t, u, v, w, d, e, f, g);
  }

  lemma DigitHigh(high: nat, p: nat, q: nat, r: nat, s: nat)
    requires p < 2 && q < 2 && r < 2 && s < 2
    ensures Xor(16 * high + 8 * p + 4 * q + 2 * r + s, 3)
         == 16 * high + 8 * p + 4 * q + 2 * (1 - r) + (1 - s)
  {
    hide Xor;
    XorUnits(high);
    XorBit(high, 0, p, 0);
    XorBit(2 * high + p, 0, q, 0);
    XorBit(4 * high + 2 * p + q, 0, r, 1);
    XorBit(8 * high + 4 * p + 2 * q + r, 1, s, 1);
  }

  lemma DigitLow(h: nat, t: nat, u: nat, v: nat, w: nat, d: nat, e: nat, f: nat, g: nat)
    requires t < 2 && u < 2 && v < 2 && w < 2 && d < 2 && e < 2 && f < 2 && g < 2
    ensures Xor(16 * h + 8 * t + 4 * u + 2 * v + w, 0x30 + 8 * d + 4 * e + 2 * f + g)
         == 16 * Xor(h, 3) + 8 * (if t == d then 0 else 1)
          + 4 * (if u == e then 0 else 1) + 2 * (if v == f then 0 else 1) + (if w == g then 0 else 1)
  {
    hide Xor;
    XorBit(h, 3, t, d);
    XorBit(2 * h + t, 6 + d, u, e);
    XorBit(4 * h + 2 * t + u, 12 + 2 * d + e, v, f);
    XorBit(8 * h + 4 * t + 2 * u + v, 24 + 4 * d + 2 * e + f, w, g);
  }

  lemma DigitOne()
    ensures ByteStep(0xFFFF_FFFF, 0x31) == 0x7C23_1048
  {
    hide Bits, Xor;
    XorDigit(0xFFFF_FFFF, 0xFF_FFFF, 1, 1, 1, 1, 1, 1, 1, 1, 0, 0, 0, 1);
    BitsStart(0xFFFF_FFCE);
    BitsHalve(0xFFFF_FFCE, 0, 0x7FFF_FFE7);
    BitsFlip(0xFFFF_FFCE, 1, 0x3FFF_FFF3, 1, 1, 3, 1, 3, 1, 7, 7, 1, 31, 3, 3, 1, 19);
    BitsFlip(0xFFFF_FFCE, 2, 0x6923_BE69, 3, 0, 2, 0, 2, 0, 4, 3, 1, 15, 2, 1, 1, 9);
    BitsFlip(0xFFFF_FFCE, 3, 0x424D_9EA4, 2, 0, 0, 1, 0, 1, 1, 5, 1, 7, 2, 2, 1, 4);
    BitsHalve(0xFFFF_FFCE, 4, 0x57FA_8EC2);
    BitsHalve(0xFFFF_FFCE, 5, 0x2BFD_4761);
    BitsFlip(0xFFFF_FFCE, 6, 0x15FE_A3B0, 0, 1, 1, 0, 3, 1, 7, 6, 1, 8, 3, 2, 1, 16);
    BitsHalve(0xFFFF_FFCE, 7, 0x7C23_1048);
  }

  lemma DigitTwo()
    ensures ByteStep(0x7C23_1048, 0x32) == 0xB0AC_BB32
  {
    hide Bits, Xor;
    XorDigit(0x7C23_1048, 0x7C_2310, 0, 1, 0, 0, 1, 0, 0, 0, 0, 0, 1, 0);
    BitsStart(0x7C23_107A);
    BitsHalve(0x7C23_107A, 0, 0x3E11_883D);
    BitsFlip(0x7C23_107A, 1, 0x1F08_C41E, 0, 1, 3, 1, 2, 0, 1, 0, 1, 17, 0, 0, 0, 30);
    BitsHalve(0x7C23_107A, 2, 0x7958_239F);
    BitsFlip(0x7C23_107A, 3, 0x3CAC_11CF, 1, 1, 3, 0, 1, 0, 5, 4, 0, 4, 1, 3, 0, 15);
    BitsFlip(0x7C23_107A, 4, 0x688A_4977, 3, 0, 2, 0, 1, 0, 1, 2, 0, 18, 1, 1, 1, 23);
    BitsFlip(0x7C23_107A, 5, 0x4299_652B, 2, 0, 0, 1, 1, 0, 3, 1, 0, 25, 1, 0, 1, 11);
    BitsFlip(0x7C23_107A, 6, 0x5790_F305, 2, 1, 1, 1, 3, 0, 2, 0, 1, 28, 3, 0, 0, 5);
    BitsFlip(0x7C23_107A, 7, 0x5D14_3812, 2, 1, 3, 0, 2, 0, 2, 4, 0, 14, 0, 0, 0, 18);
  }

  lemma DigitThree()
    ensures ByteStep(0xB0AC_BB32, 0x33) == 0x77B7_9C2D
  {
    hide Bits, Xor;
    XorDigit(0xB0AC_BB32, 0xB0_ACBB, 0, 0, 1, 1, 0, 0, 1, 0, 0, 0, 1, 1);
    BitsStart(0xB0AC_BB01);
    BitsFlip(0xB0AC_BB01, 0, 0x5856_5D80, 2, 1, 2, 0, 0, 1, 2, 6, 0, 23, 1, 2, 0, 0);
    BitsHalve(0xB0AC_BB01, 1, 0x5AF7_6F50);
    BitsHalve(0xB0AC_BB01, 2, 0x2D7B_B7A8);
    BitsHalve(0xB0AC_BB01, 3, 0x16BD_DBD4);
    BitsHalve(0xB0AC_BB01, 4, 0xB5E_EDEA);
    BitsHalve(0xB0AC_BB01, 5, 0x5AF_76F5);
    BitsFlip(0xB0AC_BB01, 6, 0x2D7_BB7A, 0, 0, 0, 1, 1, 1, 2, 7, 1, 14, 3, 1, 1, 26);
    BitsHalve(0xB0AC_BB01, 7, 0x77B7_9C2D);
  }

  lemma DigitFour()
    ensures ByteStep(0x77B7_9C2D, 0x34) == 0x641C_1F5C
  {
    hide Bits, Xor;
    XorDigit(0x77B7_9C2D, 0x77_B79C, 0, 0, 1, 0, 1, 1, 0, 1, 0, 1, 0, 0);
    BitsStart(0x77B7_9C19);
    BitsFlip(0x77B7_9C19, 0, 0x3BDB_CE0C, 1, 1, 2, 1, 3, 1, 3, 3, 1, 19, 2, 0, 0, 12);
    BitsHalve(0x77B7_9C19, 1, 0x6B31_A696);
    BitsHalve(0x77B7_9C19, 2, 0x3598_D34B);
    BitsFlip(0x77B7_9C19, 3, 0x1ACC_69A5, 0, 1, 2, 1, 1, 1, 1, 4, 0, 26, 1, 2, 1, 5);
    BitsFlip(0x77B7_9C19, 4, 0x7BBA_7542, 3, 1, 2, 1, 3, 0, 7, 2, 0, 29, 1, 1, 0, 2);
    BitsHalve(0x77B7_9C19, 5, 0x4B01_7B31);
    BitsFlip(0x77B7_9C19, 6, 0x2580_BD98, 1, 0, 1, 0, 3, 0, 0, 0, 1, 15, 1, 2, 0, 24);
    BitsHalve(0x77B7_9C19, 7, 0x641C_1F5C);
  }

  lemma DigitFive()
    ensures ByteStep(0x641C_1F5C, 0x35) == 0x340A_C5E3
  {
    hide Bits, Xor;
    XorDigit(0x641C_1F5C, 0x64_1C1F, 0, 1, 0, 1, 1, 1, 0, 0, 0, 1, 0, 1);
    BitsStart(0x641C_1F69);
    BitsFlip(0x641C_1F69, 0, 0x320E_0FB4, 1, 1, 0, 1, 0, 0, 1, 6, 0, 3, 3, 2, 1, 20);
    BitsHalve(0x641C_1F69, 1, 0x6FDB_464A);
    BitsHalve(0x641C_1F69, 2, 0x37ED_A325);
    BitsFlip(0x641C_1F69, 3, 0x1BF6_D192, 0, 1, 2, 1, 3, 1, 6, 6, 1, 20, 1, 2, 0, 18);
    BitsHalve(0x641C_1F69, 4, 0x7B27_2959);
    BitsFlip(0x641C_1F69, 5, 0x3D93_94AC, 1, 1, 3, 0, 3, 0, 2, 3, 1, 5, 0, 2, 1, 12);
    BitsHalve(0x641C_1F69, 6, 0x6815_8BC6);
    BitsHalve(0x641C_1F69, 7, 0x340A_C5E3);
  }

  lemma DigitSix()
    ensures ByteStep(0x340A_C5E3, 0x36) == 0xF68D_2C9E
  {
    hide Bits, Xor;
    XorDigit(0x340A_C5E3, 0x34_0AC5, 1, 1, 1, 0, 0, 0, 1, 1, 0, 1, 1, 0);
    BitsStart(0x340A_C5D5);
    BitsFlip(0x340A_C5D5, 0, 0x1A05_62EA, 0, 1, 2, 1, 0, 0, 0, 5, 0, 24, 2, 3, 1, 10);
    BitsHalve(0x340A_C5D5, 1, 0x7BDE_F0E5);
    BitsFlip(0x340A_C5D5, 2, 0x3DEF_7872, 1, 1, 3, 0, 3, 1, 5, 7, 0, 30, 0, 1, 1, 18);
    BitsHalve(0x340A_C5D5, 3, 0x682B_FDA9);
    BitsFlip(0x340A_C5D5, 4, 0x3415_FED4, 1, 1, 1, 0, 0, 0, 2, 5, 1, 31, 2, 3, 0, 20);
    BitsHalve(0x340A_C5D5, 5, 0x6CD6_BEFA);
    BitsHalve(0x340A_C5D5, 6, 0x366B_5F7D);
    BitsFlip(0x340A_C5D5, 7, 0x1B35_AFBE, 0, 1, 2, 1, 2, 0, 6, 5, 1, 11, 3, 2, 1, 30);
  }

  lemma DigitSeven()
    ensures ByteStep(0xF68D_2C9E, 0x37) == 0xAFFC_9660
  {
    hide Bits, Xor;
    XorDigit(0xF68D_2C9E, 0xF6_8D2C, 1, 0, 0, 1, 1, 1, 1, 0, 0, 1, 1, 1);
    BitsStart(0xF68D_2CA9);
    BitsFlip(0xF68D_2CA9, 0, 0x7B46_9654, 3, 1, 2, 1, 2, 1, 0, 6, 1, 5, 2, 1, 0, 20);
    BitsHalve(0xF68D_2CA9, 1, 0x4B7F_0ABA);
    BitsHalve(0xF68D_2CA9, 2, 0x25BF_855D);
    BitsFlip(0xF68D_2CA9, 3, 0x12DF_C2AE, 0, 1, 0, 1, 1, 1, 3, 7, 1, 16, 2, 2, 1, 14);
    BitsHalve(0xF68D_2CA9, 4, 0x7FB3_A0C7);
    BitsFlip(0xF68D_2CA9, 5, 0x3FD9_D063, 1, 1, 3, 1, 3, 1, 3, 1, 1, 20, 0, 1, 1, 3);
    BitsFlip(0xF68D_2CA9, 6, 0x6930_A9A1, 3, 0, 2, 0, 2, 0, 6, 0, 1, 10, 1, 2, 1, 1);
    BitsFlip(0xF68D_2CA9, 7, 0x4244_1540, 2, 0, 0, 1, 0, 1, 0, 4, 0, 5, 1, 1, 0, 0);
  }

  lemma DigitEight()
    ensures ByteStep(0xAFFC_9660, 0x38) == 0x651F_2550
  {
    hide Bits, Xor;
    XorDigit(0xAFFC_9660, 0xAF_FC96, 0, 1, 1, 0, 0, 0, 0, 0, 1, 0, 0, 0);
    BitsStart(0xAFFC_9658);
    BitsHalve(0xAFFC_9658, 0, 0x57FE_4B2C);
    BitsHalve(0xAFFC_9658, 1, 0x2BFF_2596);
    BitsHalve(0xAFFC_9658, 2, 0x15FF_92CB);
    BitsFlip(0xAFFC_9658, 3, 0xAFF_C965, 0, 0, 2, 1, 1, 1, 7, 7, 1, 18, 1, 1, 1, 5);
    BitsFlip(0xAFFC_9658, 4, 0x73A3_A522, 3, 1, 0, 1, 3, 0, 4, 3, 1, 9, 1, 0, 1, 2);
    BitsHalve(0xAFFC_9658, 5, 0x4F0D_9301);
    BitsFlip(0xAFFC_9658, 6, 0x2786_C980, 1, 0, 1, 1, 3, 0, 0, 6, 1, 18, 1, 2, 0, 0);
    BitsHalve(0xAFFC_9658, 7, 0x651F_2550);
  }

  lemma DigitNine()
    ensures ByteStep(0x651F_2550, 0x39) == 0x340B_C6D9
  {
    hide Bits, Xor;
    XorDigit(0x651F_2550, 0x65_1F25, 0, 1, 0, 1, 0, 0, 0, 0, 1, 0, 0, 1);
    BitsStart(0x651F_2569);
    BitsFlip(0x651F_2569, 0, 0x328F_92B4, 1, 1, 0, 1, 1, 0, 1, 7, 1, 4, 2, 2, 1, 20);
    BitsHalve(0x651F_2569, 1, 0x6F9B_88CA);
    BitsHalve(0x651F_2569, 2, 0x37CD_C465);
    BitsFlip(0x651F_2569, 3, 0x1BE6_E232, 0, 1, 2, 1, 3, 1, 4, 6, 1, 24, 2, 0, 1, 18);
    BitsHalve(0x651F_2569, 4, 0x7B2F_3089);
    BitsFlip(0x651F_2569, 5, 0x3D97_9844, 1, 1, 3, 0, 3, 0, 2, 7, 1, 6, 0, 1, 0, 4);
    BitsHalve(0x651F_2569, 6, 0x6817_8DB2);
    BitsHalve(0x651F_2569, 7, 0x340B_C6D9);
  }

  lemma UpdateNext(c: word, data: bytes, b: byte)
    ensures Update(c, data + [b]) == ByteStep(Update(c, data), b)
  {
    hide ByteStep;
    assert (data + [b])[..|data|] == data;
  }

  lemma UpdateNone(c: word)
    ensures Update(c, []) == c
  {
  }

  /** The check value that identifies this CRC: the checksum of the digits one to nine in ASCII. */
  lemma CheckValue()
    ensures Crc([0x31, 0x32, 0x33, 0x34, 0x35, 0x36, 0x37, 0x38, 0x39]) == 0xCBF4_3926
  {
    hide Update, ByteStep;
    UpdateNone(ONES);
    DigitOne();
    UpdateNext(ONES, [], 0x31);
    assert [] + [0x31] == [0x31];
    DigitTwo();
    UpdateNext(ONES, [0x31], 0x32);
    assert [0x31] + [0x32] == [0x31, 0x32];
    DigitThree();
    UpdateNext(ONES, [0x31, 0x32], 0x33);
    assert [0x31, 0x32] + [0x33] == [0x31, 0x32, 0x33];
    DigitFour();
    UpdateNext(ONES, [0x31, 0x32, 0x33], 0x34);
    assert [0x31, 0x32, 0x33] + [0x34] == [0x31, 0x32, 0x33, 0x34];
    DigitFive();
    UpdateNext(ONES, [0x31, 0x32, 0x33, 0x34], 0x35);
    assert [0x31, 0x32, 0x33, 0x34] + [0x35] == [0x31, 0x32, 0x33, 0x34, 0x35];
    DigitSix();
    UpdateNext(ONES, [0x31, 0x32, 0x33, 0x34, 0x35], 0x36);
    assert [0x31, 0x32, 0x33, 0x34, 0x35] + [0x36] == [0x31, 0x32, 0x33, 0x34, 0x35, 0x36];
    DigitSeven();
    UpdateNext(ONES, [0x31, 0x32, 0x33, 0x34, 0x35, 0x36], 0x37);
    assert [0x31, 0x32, 0x33, 0x34, 0x35, 0x36] + [0x37] == [0x31, 0x32, 0x33, 0x34, 0x35, 0x36, 0x37];
    DigitEight();
    UpdateNext(ONES, [0x31, 0x32, 0x33, 0x34, 0x35, 0x36, 0x37], 0x38);
    assert [0x31, 0x32, 0x33, 0x34, 0x35, 0x36, 0x37] + [0x38] == [0x31, 0x32, 0x33, 0x34, 0x35, 0x36, 0x37, 0x38];
    DigitNine();
    UpdateNext(ONES, [0x31, 0x32, 0x33, 0x34, 0x35, 0x36, 0x37, 0x38], 0x39);
    assert [0x31, 0x32, 0x33, 0x34, 0x35, 0x36, 0x37, 0x38] + [0x39]
        == [0x31, 0x32, 0x33, 0x34, 0x35, 0x36, 0x37, 0x38, 0x39];
  }
}
