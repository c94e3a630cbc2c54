/** Bytes, fixed-width little-endian integers, text and the hash function. */
module Bytes {
  newtype byte = x: int | 0 <= x < 256
  type bytes = seq<byte>

  function Zeros(n: nat): (z: bytes)
    ensures |z| == n
  {
    seq(n, _ => 0)
  }

  /** A SHA-256 result. */
  type Digest = d: bytes | |d| == 32 witness Zeros(32)

  /** SHA-256, about which nothing is assumed except the size of its result. */
  const Sha256: bytes -> Digest

  const ZERO_HASH_32: Digest := Zeros(32)

  /** Two different messages with one hash. */
  ghost predicate Collision(a: bytes, b: bytes) {
    a != b && Sha256(a) == Sha256(b)
  }

  datatype Option<+T> = None | Some(value: T)

  // ---------------------------------------------------------------- integers

  function Pow256(n: nat): (p: nat)
    ensures p > 0
  {
    if n == 0 then 1 else 256 * Pow256(n - 1)
  }

  /** The n low bytes of v, least significant first. */
  function LE(v: int, n: nat): (b: bytes)
    ensures |b| == n
    decreases n, v
  {
    if n == 0 then [] else [(v % 256) as byte] + LE(v / 256, n - 1)
  }

  /** The number written by b, least significant byte first. */
  function FromLE(b: bytes): (v: nat)
    ensures v < Pow256(|b|)
  {
    if b == [] then 0 else b[0] as nat + 256 * FromLE(b[1..])
  }

  lemma {:induction false} LERoundTrip(v: nat, n: nat)
    requires v < Pow256(n)
    ensures FromLE(LE(v, n)) == v
  {
    if n > 0 {
      LERoundTrip(v / 256, n - 1);
      assert LE(v, n)[1..] == LE(v / 256, n - 1);
    }
  }

  lemma {:induction false} FromLERoundTrip(b: bytes)
    ensures LE(FromLE(b), |b|) == b
  {
    if b != [] {
      FromLERoundTrip(b[1..]);
      assert b == [b[0]] + b[1..];
    }
  }

  const MAX_UINT32: nat := 0xFFFF_FFFF
  const MAX_UINT64: nat := 0xFFFF_FFFF_FFFF_FFFF

  lemma Widths()
    ensures Pow256(4) == MAX_UINT32 + 1 && Pow256(8) == MAX_UINT64 + 1
  {
    assert Pow256(2) == 65536;
    assert Pow256(4) == 256 * 256 * Pow256(2);
    assert Pow256(6) == 256 * 256 * Pow256(4);
    assert Pow256(8) == 256 * 256 * Pow256(6);
  }

  function U32(v: int): (b: bytes)
    ensures |b| == 4
  {
    LE(v, 4)
  }

  function U64(v: int): (b: bytes)
    ensures |b| == 8
  {
    LE(v, 8)
  }

  // -------------------------------------------------------------------- text

  /** Which non-empty byte strings the UTF-8 decoder accepts; nothing is assumed about it. */
  const Utf8Decodes: bytes -> bool

  predicate ValidUtf8(s: bytes) {
    s == [] || Utf8Decodes(s)
  }

  /** A string, held as its UTF-8 encoding. */
  type Text = s: bytes | ValidUtf8(s)

  /** Number of characters of a text: its bytes that do not continue a character. */
  function CharCount(s: bytes): nat {
    if s == [] then 0 else (if 0x80 <= s[0] <= 0xBF then 0 else 1) + CharCount(s[1..])
  }

  // --------------------------------------------------------------- sequences

  lemma Associate(a: bytes, b: bytes, c: bytes)
    ensures (a + b) + c == a + (b + c)
  {
  }

  lemma SplitAt<T>(a: seq<T>, b: seq<T>)
    ensures (a + b)[..|a|] == a && (a + b)[|a|..] == b
  {
  }
}
