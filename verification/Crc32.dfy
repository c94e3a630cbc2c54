/** The frame checksum: reflected CRC-32, its table-driven loop, and what it detects.

    A machine word is a number below 2^32; `^` is Xor, `>>> k` divides by 2^k, `& 0xFF` is the
    remainder by 256. */
module Crc32 {
  import opened Bytes

  type word = w: nat | w < 0x1_0000_0000

  const POLY: word := 0xEDB8_8320
  const ONES: word := 0xFFFF_FFFF

  // ------------------------------------------------------------- exclusive or

  function Pow2(n: nat): (p: nat)
    ensures p > 0
  {
    if n == 0 then 1 else 2 * Pow2(n - 1)
  }

  function Xor(a: nat, b: nat): nat {
    if a == 0 && b == 0 then 0 else (if a % 2 == b % 2 then 0 else 1) + 2 * Xor(a / 2, b / 2)
  }

  lemma {:induction false} XorBound(a: nat, b: nat, n: nat)
    requires a < Pow2(n) && b < Pow2(n)
    ensures Xor(a, b) < Pow2(n)
  {
    if n > 0 {
      XorBound(a / 2, b / 2, n - 1);
    }
  }

  lemma {:induction false} XorCommutes(a: nat, b: nat)
    ensures Xor(a, b) == Xor(b, a)
  {
    if a != 0 || b != 0 {
      XorCommutes(a / 2, b / 2);
    }
  }

  lemma Parity(a: nat, b: nat)
    ensures (a + b) % 2 == if a % 2 == b % 2 then 0 else 1
  {
  }

  lemma XorUnfold(a: nat, b: nat, bit: nat, p: nat, q: nat)
    requires bit == (a + b) % 2 && p == a / 2 && q == b / 2
    ensures Xor(a, b) == bit + 2 * Xor(p, q)
  {
    Parity(a, b);
  }

  lemma Halves(x: nat, bit: nat, q: nat)
    requires bit < 2 && x == bit + 2 * q
    ensures x % 2 == bit && x / 2 == q
  {
  }

  lemma XorHalves(a: nat, b: nat)
    ensures Xor(a, b) % 2 == (a + b) % 2 && Xor(a, b) / 2 == Xor(a / 2, b / 2)
  {
    XorUnfold(a, b, (a + b) % 2, a / 2, b / 2);
    Halves(Xor(a, b), (a + b) % 2, Xor(a / 2, b / 2));
  }

  lemma SameHalves(x: nat, y: nat)
    requires x % 2 == y % 2 && x / 2 == y / 2
    ensures x == y
  {
  }

  lemma AddParity(x: nat, y: nat, z: nat, xy: nat, yz: nat)
    requires xy % 2 == (x + y) % 2 && yz % 2 == (y + z) % 2
    ensures (xy + z) % 2 == (x + yz) % 2
  {
  }

  lemma {:induction false} XorAssociates(a: nat, b: nat, c: nat)
    ensures Xor(Xor(a, b), c) == Xor(a, Xor(b, c))
    decreases a + b + c
  {
    if a + b + c > 0 {
      var ab, bc := Xor(a, b), Xor(b, c);
      XorHalves(a, b);
      XorHalves(b, c);
      XorHalves(ab, c);
      XorHalves(a, bc);
      AddParity(a, b, c, ab, bc);
      XorAssociates(a / 2, b / 2, c / 2);
      SameHalves(Xor(ab, c), Xor(a, bc));
    }
  }

  lemma {:induction false} XorUnits(a: nat)
    ensures Xor(a, a) == 0 && Xor(a, 0) == a && Xor(0, a) == a
  {
    if a != 0 {
      XorUnits(a / 2);
    }
  }

  lemma XorCancel(x: nat, y: nat, z: nat)
    requires Xor(x, z) == Xor(y, z)
    ensures x == y
  {
    XorAssociates(x, z, z);
    XorAssociates(y, z, z);
    XorUnits(z);
    XorUnits(x);
    XorUnits(y);
  }

  /** Exclusive or with all ones is the complement. */
  lemma {:induction false} XorOnes(x: nat, n: nat)
    requires x < Pow2(n)
    ensures Xor(x, Pow2(n) - 1) == Pow2(n) - 1 - x
    decreases n
  {
    hide Xor;
    if n == 0 {
      XorUnits(0);
    } else {
      var m, h := Pow2(n) - 1, Pow2(n - 1) - 1;
      XorOnes(x / 2, n - 1);
      XorHalves(x, m);
      Halves(m, 1, h);
      ComplementHalves(Xor(x, m), m, x, h);
    }
  }

  lemma ComplementHalves(r: nat, m: nat, x: nat, h: nat)
    requires m == 2 * h + 1 && x <= m && r % 2 == (x + m) % 2 && r / 2 == h - x / 2
    ensures r == m - x
  {
  }

  lemma XorSwap(p: nat, q: nat, r: nat, s: nat)
    ensures Xor(Xor(p, q), Xor(r, s)) == Xor(Xor(p, r), Xor(q, s))
  {
    XorAssociates(p, q, Xor(r, s));
    XorAssociates(q, r, s);
    XorCommutes(q, r);
    XorAssociates(r, q, s);
    XorAssociates(p, r, Xor(q, s));
  }

  function XorWord(a: word, b: word): (r: word)
    ensures r == Xor(a, b)
  {
    assert Pow2(32) == 0x1_0000_0000 by { PowerOf32(); }
    XorBound(a, b, 32);
    Xor(a, b)
  }

  lemma PowerOf32()
    ensures Pow2(31) == 0x8000_0000 && Pow2(32) == 0x1_0000_0000
  {
    assert Pow2(8) == 256;
    assert Pow2(16) == 256 * Pow2(8);
    assert Pow2(24) == 256 * Pow2(16);
    assert Pow2(31) == 128 * Pow2(24);
  }

  // ------------------------------------------------------ bit-by-bit definition

  function BitStep(c: word): word {
    if c % 2 == 1 then XorWord(POLY, c / 2) else c / 2
  }

  function Bits(c: word, n: nat): word
    decreases n, c
  {
    if n == 0 then c else BitStep(Bits(c, n - 1))
  }

  function ByteStep(c: word, b: byte): word {
    Bits(XorWord(c, b as nat), 8)
  }

  function Update(c: word, data: bytes): word {
    if data == [] then c else ByteStep(Update(c, data[..|data| - 1]), data[|data| - 1])
  }

  /** CRC-32 of data, as zlib.crc32 computes it: the register complemented, which is what the
      exclusive or with all ones does (XorOnes). */
  function Crc(data: bytes): word {
    ONES - Update(ONES, data)
  }

  lemma Complement(x: word)
    ensures XorWord(x, ONES) == ONES - x
  {
    hide Xor;
    PowerOf32();
    XorOnes(x, 32);
  }

  // --------------------------------------------------- the bit step is linear

  lemma XorPoly(p: nat, q: nat)
    ensures Xor(Xor(POLY, p), Xor(POLY, q)) == Xor(p, q)
    ensures Xor(Xor(POLY, p), q) == Xor(POLY, Xor(p, q)) == Xor(p, Xor(POLY, q))
  {
    XorSwap(POLY, p, POLY, q);
    XorUnits(POLY);
    XorUnits(Xor(p, q));
    XorAssociates(POLY, p, q);
    XorCommutes(POLY, p);
    XorAssociates(p, POLY, q);
  }

  lemma StepOdd(x: word)
    requires x % 2 == 1
    ensures BitStep(x) == Xor(POLY, x / 2)
  {
  }

  lemma StepEven(x: word)
    requires x % 2 == 0
    ensures BitStep(x) == x / 2
  {
  }

  lemma BitStepOdds(x: word, y: word, z: word)
    requires x % 2 == 1 && y % 2 == 1 && z % 2 == 0 && z / 2 == Xor(x / 2, y / 2)
    ensures BitStep(z) == Xor(BitStep(x), BitStep(y))
  {
    StepOdd(x); StepOdd(y); StepEven(z);
    XorPoly(x / 2, y / 2);
  }

  lemma BitStepMixed(x: word, y: word, z: word)
    requires x % 2 == 1 && y % 2 == 0 && z % 2 == 1 && z / 2 == Xor(x / 2, y / 2)
    ensures BitStep(z) == Xor(BitStep(x), BitStep(y))
  {
    StepOdd(x); StepEven(y); StepOdd(z);
    XorPoly(x / 2, y / 2);
  }

  lemma BitStepXor(x: word, y: word)
    ensures BitStep(XorWord(x, y)) == XorWord(BitStep(x), BitStep(y))
  {
    var z := XorWord(x, y);
    XorHalves(x, y);
    if x % 2 == 1 && y % 2 == 1 {
      BitStepOdds(x, y, z);
    } else if x % 2 == 1 {
      BitStepMixed(x, y, z);
    } else if y % 2 == 1 {
      XorCommutes(x / 2, y / 2);
      XorCommutes(BitStep(x), BitStep(y));
      BitStepMixed(y, x, z);
    } else {
      StepEven(x); StepEven(y); StepEven(z);
    }
  }

  lemma {:induction false} BitsXor(x: word, y: word, n: nat)
    ensures Bits(XorWord(x, y), n) == XorWord(Bits(x, n), Bits(y, n))
  {
    if n > 0 {
      BitsXor(x, y, n - 1);
      BitStepXor(Bits(x, n - 1), Bits(y, n - 1));
    }
  }

  // ------------------------------------------------- the bit step is injective

  /** POLY carries the top bit, which no halved word has. */
  lemma {:induction false} XorTopBit(a: nat, b: nat, n: nat)
    requires Pow2(n) <= a < 2 * Pow2(n) && b < Pow2(n)
    ensures Xor(a, b) >= Pow2(n)
  {
    if n > 0 {
      XorTopBit(a / 2, b / 2, n - 1);
    }
  }

  lemma BitStepInjective(x: word, y: word)
    requires BitStep(x) == BitStep(y)
    ensures x == y
  {
    PowerOf32();
    XorTopBit(POLY, x / 2, 31);
    XorTopBit(POLY, y / 2, 31);
    if x % 2 == 1 && y % 2 == 1 {
      XorCommutes(POLY, x / 2);
      XorCommutes(POLY, y / 2);
      XorCancel(x / 2, y / 2, POLY);
    }
  }

  lemma {:induction false} BitsInjective(x: word, y: word, n: nat)
    requires Bits(x, n) == Bits(y, n)
    ensures x == y
  {
    if n > 0 {
      BitStepInjective(Bits(x, n - 1), Bits(y, n - 1));
      BitsInjective(x, y, n - 1);
    }
  }

  /** A byte step forgets neither the running value nor the byte. */
  lemma ByteStepInjective(c: word, d: word, a: byte, b: byte)
    requires ByteStep(c, a) == ByteStep(d, b)
    ensures a == b ==> c == d
    ensures c == d ==> a == b
  {
    BitsInjective(XorWord(c, a as nat), XorWord(d, b as nat), 8);
    if a == b {
      XorCancel(c, d, a as nat);
    }
    if c == d {
      XorCommutes(c, a as nat);
      XorCommutes(c, b as nat);
      XorCancel(a as nat, b as nat, c);
    }
  }

  // ----------------------------------------------------- the lookup table loop

  /** Eight bit steps only shift a word whose low byte is clear. */
  lemma ShiftOut(m: nat)
    requires 256 * m < 0x1_0000_0000
    ensures Bits(256 * m, 8) == m
  {
    assert Bits(256 * m, 1) == 128 * m;
    assert Bits(256 * m, 2) == 64 * m;
    assert Bits(256 * m, 3) == 32 * m;
    assert Bits(256 * m, 4) == 16 * m;
    assert Bits(256 * m, 5) == 8 * m;
    assert Bits(256 * m, 6) == 4 * m;
    assert Bits(256 * m, 7) == 2 * m;
  }

  function Double(x: nat, n: nat): nat {
    if n == 0 then x else 2 * Double(x, n - 1)
  }

  lemma XorEven(lo: nat, k: nat)
    ensures Xor(lo, 2 * k) == lo % 2 + 2 * Xor(lo / 2, k)
  {
    XorUnfold(lo, 2 * k, lo % 2, lo / 2, k);
  }

  lemma {:induction false} XorDisjoint(lo: nat, hi: nat, n: nat)
    requires lo < Pow2(n)
    ensures Xor(lo, Double(hi, n)) == lo + Double(hi, n)
  {
    if n == 0 {
      XorUnits(hi);
    } else {
      XorEven(lo, Double(hi, n - 1));
      XorDisjoint(lo / 2, hi, n - 1);
    }
  }

  lemma DoubleEight(x: nat)
    ensures Double(x, 8) == 256 * x
  {
    assert Double(x, 1) == 2 * x;
    assert Double(x, 3) == 8 * x;
    assert Double(x, 5) == 32 * x;
    assert Double(x, 7) == 128 * x;
  }

  lemma BitsSplit(w: word)
    ensures Bits(w, 8) == XorWord(Bits(w % 256, 8), w / 256)
  {
    assert Pow2(8) == 256;
    DoubleEight(w / 256);
    XorDisjoint(w % 256, w / 256, 8);
    BitsXor(w % 256, 256 * (w / 256), 8);
    ShiftOut(w / 256);
  }

  function Halve(x: nat, n: nat): nat {
    if n == 0 then x else Halve(x / 2, n - 1)
  }

  lemma {:induction false} XorHalve(a: nat, b: nat, n: nat)
    ensures Halve(Xor(a, b), n) == Xor(Halve(a, n), Halve(b, n))
  {
    if n > 0 {
      XorHalves(a, b);
      XorHalve(a / 2, b / 2, n - 1);
    }
  }

  lemma HalveEight(x: nat)
    ensures Halve(x, 8) == x / 256
  {
    assert x / 2 / 2 == x / 4 && x / 4 / 2 == x / 8 && x / 8 / 2 == x / 16 && x / 16 / 2 == x / 32;
    assert x / 32 / 2 == x / 64 && x / 64 / 2 == x / 128 && x / 128 / 2 == x / 256;
    assert Halve(x / 128, 1) == x / 256;
    assert Halve(x / 32, 3) == x / 256;
    assert Halve(x / 8, 5) == x / 256;
    assert Halve(x / 2, 7) == x / 256;
  }

  lemma XorHigh(a: nat, b: nat)
    requires b < 256
    ensures Xor(a, b) / 256 == a / 256
  {
    XorHalve(a, b, 8);
    HalveEight(Xor(a, b));
    HalveEight(a);
    HalveEight(b);
    XorUnits(a / 256);
  }

  ghost predicate IsTable(t: seq<word>) {
    |t| == 256 && forall i :: 0 <= i < 256 ==> t[i] == Bits(i, 8)
  }

  method MakeTable() returns (table: array<word>)
    ensures fresh(table) && IsTable(table[..])
  {
    table := new word[256];
    for i := 0 to 256
      invariant forall k :: 0 <= k < i ==> table[k] == Bits(k, 8)
    {
      var c: word := i;
      for j := 0 to 8
        invariant c == Bits(i, j)
      {
        if c % 2 == 1 {
          c := XorWord(POLY, c / 2);
        } else {
          c := c / 2;
        }
      }
      table[i] := c;
    }
  }

  /** One table lookup does the work of eight bit steps. */
  lemma TableStep(t: seq<word>, c: word, b: byte)
    requires IsTable(t)
    ensures XorWord(t[XorWord(c, b as nat) % 256], c / 256) == ByteStep(c, b)
  {
    XorHigh(c, b as nat);
    BitsSplit(XorWord(c, b as nat));
  }

  /** The loop of chain.ts over a finished table. */
  method Compute(table: array<word>, data: bytes) returns (r: word)
    requires IsTable(table[..])
    ensures r == Crc(data)
  {
    var crc: word := ONES;
    for i := 0 to |data|
      invariant crc == Update(ONES, data[..i])
    {
      TableStep(table[..], crc, data[i]);
      crc := XorWord(table[XorWord(crc, data[i] as nat) % 256], crc / 256);
      assert data[..i + 1][..i] == data[..i];
    }
    assert data[..|data|] == data;
    Complement(crc);
    r := XorWord(crc, ONES);
  }

  // -------------------------------------------------------- error detection

  lemma {:induction false} UpdateAppend(c: word, a: bytes, b: bytes)
    ensures Update(c, a + b) == Update(Update(c, a), b)
  {
    if b == [] {
      assert a + b == a;
    } else {
      var front, last := b[..|b| - 1], b[|b| - 1];
      assert (a + b)[..|a + b| - 1] == a + front;
      UpdateAppend(c, a, front);
    }
  }

  lemma {:induction false} UpdateInjective(c: word, d: word, data: bytes)
    requires Update(c, data) == Update(d, data)
    ensures c == d
  {
    if data != [] {
      var front, last := data[..|data| - 1], data[|data| - 1];
      ByteStepInjective(Update(c, front), Update(d, front), last, last);
      UpdateInjective(c, d, front);
    }
  }

  lemma ByteStepWord(c: word, b: byte, hi: nat)
    requires b as nat + 256 * hi < 0x1_0000_0000
    ensures Bits(XorWord(c, b as nat + 256 * hi), 8) == XorWord(ByteStep(c, b), hi)
  {
    hide Bits, Xor;
    assert Pow2(8) == 256;
    DoubleEight(hi);
    XorDisjoint(b as nat, hi, 8);
    XorAssociates(c, b as nat, 256 * hi);
    BitsXor(XorWord(c, b as nat), 256 * hi, 8);
    ShiftOut(hi);
  }

  lemma {:induction false} BitsAdd(c: word, m: nat, n: nat)
    ensures Bits(c, m + n) == Bits(Bits(c, n), m)
  {
    if m > 0 {
      BitsAdd(c, m - 1, n);
    }
  }

  lemma SmallPowers()
    ensures Pow256(0) == 1 && Pow256(1) == 0x100 && Pow256(2) == 0x1_0000
    ensures Pow256(3) == 0x100_0000 && Pow256(4) == 0x1_0000_0000
  {
    assert Pow256(2) == 0x1_0000;
  }

  lemma UpdateFirst(c: word, b: byte, rest: bytes)
    ensures Update(c, [b] + rest) == Update(ByteStep(c, b), rest)
  {
    assert [b][..0] == [];
    UpdateAppend(c, [b], rest);
  }

  lemma BitsAfterByte(c: word, b: byte, hi: nat, n: nat)
    requires b as nat + 256 * hi < 0x1_0000_0000
    ensures Bits(XorWord(ByteStep(c, b), hi), n) == Bits(XorWord(c, b as nat + 256 * hi), n + 8)
  {
    ByteStepWord(c, b, hi);
    BitsAdd(XorWord(c, b as nat + 256 * hi), n, 8);
  }

  lemma WindowBound(w: bytes)
    requires |w| <= 4
    ensures FromLE(w) < 0x1_0000_0000
  {
    SmallPowers();
  }

  /** Up to four bytes enter the register together, as one little-endian word. */
  lemma {:induction false} WindowStep(c: word, w: bytes)
    requires |w| <= 4 && FromLE(w) < 0x1_0000_0000
    ensures Update(c, w) == Bits(XorWord(c, FromLE(w)), 8 * |w|)
    decreases |w|
  {
    hide Xor, ByteStep;
    if w == [] {
      XorUnits(c);
    } else {
      var b, rest := w[0], w[1..];
      assert w == [b] + rest;
      UpdateFirst(c, b, rest);
      WindowBound(rest);
      WindowStep(ByteStep(c, b), rest);
      BitsAfterByte(c, b, FromLE(rest), 8 * |rest|);
    }
  }

  lemma WindowInjective(c: word, v: bytes, w: bytes)
    requires |v| == |w| <= 4 && Update(c, v) == Update(c, w)
    ensures v == w
  {
    WindowBound(v);
    WindowBound(w);
    WindowStep(c, v);
    WindowStep(c, w);
    BitsInjective(XorWord(c, FromLE(v)), XorWord(c, FromLE(w)), 8 * |v|);
    XorCommutes(c, FromLE(v));
    XorCommutes(c, FromLE(w));
    XorCancel(FromLE(v), FromLE(w), c);
    FromLERoundTrip(v);
    FromLERoundTrip(w);
  }

  /** Any change confined to four neighbouring bytes changes the checksum. */
  lemma BurstDetected(before: bytes, v: bytes, w: bytes, after: bytes)
    requires |v| == |w| <= 4 && v != w
    ensures Crc(before + v + after) != Crc(before + w + after)
  {
    var c := Update(ONES, before);
    UpdateAppend(ONES, before, v);
    UpdateAppend(ONES, before + v, after);
    UpdateAppend(ONES, before, w);
    UpdateAppend(ONES, before + w, after);
    if Crc(before + v + after) == Crc(before + w + after) {
      UpdateInjective(Update(c, v), Update(c, w), after);
      WindowInjective(c, v, w);
      assert false;
    }
  }
}
