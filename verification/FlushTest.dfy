/** The test FLUSH (jchuff.c) makes on eight bytes at once: whether some byte is
    0xFF and will need a zero byte after it.
 */
module FlushTest {
  import opened CodeBytes

  /** Bitwise and. */
  function BitAnd(x: nat, y: nat): nat
    decreases x
  {
    if x == 0 || y == 0 then 0
    else 2 * BitAnd(x / 2, y / 2) + if x % 2 == 1 && y % 2 == 1 then 1 else 0
  }

  /** What an `n`-byte word keeps of a sum. */
  function Kept(x: nat, n: nat): nat {
    if n == 0 then 0 else 256 * Kept(x / 256, n - 1) + x % 256
  }

  /** Bitwise complement of an `n`-byte word. */
  function Complement(x: nat, n: nat): nat {
    if n == 0 then 0 else 256 * Complement(x / 256, n - 1) + (255 - x % 256)
  }

  function HighBits(n: nat): nat {
    if n == 0 then 0 else 256 * HighBits(n - 1) + 0x80
  }

  function LowBits(n: nat): nat {
    if n == 0 then 0 else 256 * LowBits(n - 1) + 0x01
  }

  /** The source's constants. */
  lemma WordConstants()
    ensures HighBits(8) == 0x8080808080808080 && LowBits(8) == 0x0101010101010101
  {
    assert HighBits(4) == 0x80808080 && LowBits(4) == 0x01010101;
  }

  /** The test, on an `n`-byte word. */
  function SomeFF(x: nat, n: nat): bool {
    BitAnd(BitAnd(x, HighBits(n)), Complement(Kept(x + LowBits(n), n), n)) != 0
  }

  /** The bytes of an `n`-byte word, highest first. */
  function WordBytes(x: nat, n: nat): (s: seq<byte>)
    ensures |s| == n
  {
    if n == 0 then [] else WordBytes(x / 256, n - 1) + [x % 256]
  }

  // ----- Byte by byte --------------------------------------------------------------------------

  lemma {:induction false} AndSplit(a: nat, b: nat, c: nat, d: nat, k: nat)
    requires b < Pow2(k) && d < Pow2(k)
    ensures BitAnd(Shl(a, k) + b, Shl(c, k) + d) == Shl(BitAnd(a, c), k) + BitAnd(b, d)
    decreases k
  {
    hide BitAnd;
    if k == 0 {
      NoBits(0);
    } else {
      hide Shl, Pow2;
      var b', lb, d', ld := b / 2, b % 2, d / 2, d % 2;
      Shifted(a, b, k);
      Shifted(c, d, k);
      Shifted(BitAnd(a, c), 0, k);
      AndSplit(a, b', c, d', k - 1);
      AndHalves(Shl(a, k) + b, Shl(a, k - 1) + b', lb, Shl(c, k) + d, Shl(c, k - 1) + d', ld);
      AndHalves(b, b', lb, d, d', ld);
    }
  }

  lemma Shifted(x: nat, y: nat, k: nat)
    requires k > 0
    ensures Shl(x, k) == 2 * Shl(x, k - 1)
    ensures Shl(x, k) + y == 2 * (Shl(x, k - 1) + y / 2) + y % 2
    ensures y < Pow2(k) ==> y / 2 < Pow2(k - 1)
  {
  }

  lemma {:induction false} AndHalves(u: nat, x: nat, lx: nat, v: nat, y: nat, ly: nat)
    requires u == 2 * x + lx && v == 2 * y + ly && lx < 2 && ly < 2
    ensures BitAnd(u, v) == 2 * BitAnd(x, y) + if lx == 1 && ly == 1 then 1 else 0
  {
    assert u / 2 == x && u % 2 == lx && v / 2 == y && v % 2 == ly;
  }

  lemma AndBytes(a: nat, b: nat, c: nat, d: nat)
    requires b < 256 && d < 256
    ensures BitAnd(256 * a + b, 256 * c + d) == 256 * BitAnd(a, c) + BitAnd(b, d)
  {
    hide BitAnd, Shl, Pow2;
    Times256(a);
    Times256(c);
    Times256(BitAnd(a, c));
    AndSplit(a, b, c, d, 8);
  }

  lemma Times256(n: nat)
    ensures Shl(n, 8) == 256 * n && Pow2(8) == 256
  {
    ShlIsProduct(n, 8);
    assert Pow2(8) == 256;
  }

  lemma AndBelow(b: nat, d: nat)
    requires b < 256
    ensures BitAnd(b, d) < 256
  {
    AndAtMost(b, d);
  }

  lemma {:induction false} AndAtMost(b: nat, d: nat)
    ensures BitAnd(b, d) <= b
    decreases b
  {
    if b > 0 && d > 0 { AndAtMost(b / 2, d / 2); }
  }

  lemma Times128(n: nat)
    ensures Shl(n, 7) == 128 * n && Pow2(7) == 128
  {
    ShlIsProduct(n, 7);
    assert Pow2(7) == 128;
  }

  /** The test on one byte: its high bit is set, that of the byte in the sum is not. */
  lemma ByteTest(b: nat, s: nat)
    requires b < 256 && s < 256
    ensures BitAnd(BitAnd(b, 0x80), 255 - s) != 0 <==> b >= 128 && s < 128
  {
    hide BitAnd;
    HighBitOnly(b / 128, b % 128, 1, 0);
    NoBits(255 - s);
    if b >= 128 {
      HighBitOnly(1, 0, if s < 128 then 1 else 0, if s < 128 then 127 - s else 255 - s);
    }
  }

  lemma NoBits(y: nat)
    ensures BitAnd(0, y) == 0 == BitAnd(y, 0)
  {
  }

  /** The and of two bytes, of which one is 0x80 or has no low bits. */
  lemma HighBitOnly(h: nat, l: nat, high: nat, low: nat)
    requires h <= 1 && high <= 1 && l < 128 && low < 128 && (l == 0 || low == 0)
    ensures BitAnd(128 * h + l, 128 * high + low) == if h == 1 && high == 1 then 128 else 0
  {
    hide Shl, Pow2, BitAnd;
    Times128(h);
    Times128(high);
    Times128(BitAnd(h, high));
    AndSplit(h, l, high, low, 7);
    AndHalves(h, 0, h, high, 0, high);
    NoBits(low);
    NoBits(l);
    NoBits(0);
  }

  lemma KeptBytes(x: nat, n: nat)
    requires n > 0
    ensures Kept(x, n) == 256 * Kept(x / 256, n - 1) + x % 256
    ensures Kept(x, n) / 256 == Kept(x / 256, n - 1) && Kept(x, n) % 256 == x % 256
  {
  }

  lemma SumBytes(a: nat, b: nat, c: nat)
    requires b + 1 < 256
    ensures (256 * a + b + (256 * c + 1)) / 256 == a + c && (256 * a + b + (256 * c + 1)) % 256 == b + 1
  {
  }

  /** The test finds exactly the words with a byte 0xFF in them: only such a byte
      passes a carry on, and the lowest one shows.
   */
  lemma {:induction false} SomeFFExact(x: nat, n: nat)
    ensures SomeFF(x, n) <==> 0xFF in WordBytes(x, n)
    decreases n
  {
    hide BitAnd, Kept, Complement, HighBits, LowBits;
    if n == 0 {
      NothingTested(x);
    } else {
      var a, b, y := x / 256, x % 256, Kept(x + LowBits(n), n);
      TestStep(x, y, n);
      KeptBytes(x + LowBits(n), n);
      LowBitsStep(n);
      if b < 255 {
        SumBytes(a, b, LowBits(n - 1));
        ByteTest(b, b + 1);
        SomeFFExact(a, n - 1);
      } else {
        ByteTest(255, 0);
        assert (256 * a + 255 + (256 * LowBits(n - 1) + 1)) % 256 == 0;
      }
    }
  }

  lemma LowBitsStep(n: nat)
    requires n > 0
    ensures LowBits(n) == 256 * LowBits(n - 1) + 1 && HighBits(n) == 256 * HighBits(n - 1) + 0x80
  {
  }

  lemma NothingTested(x: nat)
    ensures !SomeFF(x, 0)
  {
  }

  lemma TestStep(x: nat, y: nat, n: nat)
    requires n > 0
    ensures BitAnd(BitAnd(x, HighBits(n)), Complement(y, n))
         == 256 * BitAnd(BitAnd(x / 256, HighBits(n - 1)), Complement(y / 256, n - 1))
            + BitAnd(BitAnd(x % 256, 0x80), 255 - y % 256)
  {
    hide BitAnd;
    assert x == 256 * (x / 256) + x % 256;
    AndBytes(x / 256, x % 256, HighBits(n - 1), 0x80);
    AndBelow(x % 256, 0x80);
    AndBytes(BitAnd(x / 256, HighBits(n - 1)), BitAnd(x % 256, 0x80), Complement(y / 256, n - 1), 255 - y % 256);
  }
}
