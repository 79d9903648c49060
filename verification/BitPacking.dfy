/** Bits packed into bytes, first bit highest, and the shifts that bit buffers
    are made of.
 */
module BitPacking {
  import opened CodeBytes
  import opened Coefficients
  import opened CanonicalCode
  import opened HuffTokens

  // ----- Whole bytes -------------------------------------------------------------------------

  lemma {:induction false} BitsValueBelow(bits: seq<bool>, n: nat)
    ensures BitsValue(bits, n) < Pow2(n)
    decreases n
  {
    if n > 0 { BitsValueBelow(bits, n - 1); }
  }

  /** Eight bits as a byte. */
  function ByteOf(bits: seq<bool>): byte {
    BitsValueBelow(bits, 8);
    assert Pow2(8) == 256;
    BitsValue(bits, 8)
  }

  /** The complete bytes of a bit string. */
  ghost function WholeBytes(bits: seq<bool>): seq<byte>
    decreases |bits|
  {
    if |bits| < 8 then [] else [ByteOf(bits[..8])] + WholeBytes(bits[8..])
  }

  /** The bits after the last complete byte. */
  ghost function LeftOver(bits: seq<bool>): (r: seq<bool>)
    ensures |r| < 8
    decreases |bits|
  {
    if |bits| < 8 then bits else LeftOver(bits[8..])
  }

  /** Appending needs only the bits left over. */
  lemma {:induction false} Append(a: seq<bool>, b: seq<bool>)
    ensures WholeBytes(a + b) == WholeBytes(a) + WholeBytes(LeftOver(a) + b)
    ensures LeftOver(a + b) == LeftOver(LeftOver(a) + b)
    decreases |a|
  {
    if |a| >= 8 {
      assert (a + b)[..8] == a[..8] && (a + b)[8..] == a[8..] + b;
      Append(a[8..], b);
    }
  }

  /** Taking one byte off the front. */
  lemma FirstByte(bits: seq<bool>)
    requires |bits| >= 8
    ensures WholeBytes(bits) == [ByteOf(bits[..8])] + WholeBytes(bits[8..]) && LeftOver(bits) == LeftOver(bits[8..])
  {
  }

  function Ones(n: nat): (s: seq<bool>)
    ensures |s| == n
  {
    if n == 0 then [] else Ones(n - 1) + [true]
  }

  /** A partial last byte is filled with ones. */
  ghost function Padded(bits: seq<bool>): seq<bool> {
    if LeftOver(bits) == [] then bits else bits + Ones(8 - |LeftOver(bits)|)
  }

  // ----- Reading the bits of bytes -------------------------------------------------------------

  function BitsOf(bytes: seq<byte>): seq<bool> {
    if bytes == [] then [] else BitString(bytes[0] as nat, 8) + BitsOf(bytes[1..])
  }

  lemma {:induction false} BitStringOfValue(bits: seq<bool>, n: nat)
    requires n <= |bits|
    ensures BitString(BitsValue(bits, n), n) == bits[..n]
    decreases n
  {
    if n > 0 {
      BitStringOfValue(bits, n - 1);
      var v, bit := BitsValue(bits, n - 1), if bits[n - 1] then 1 else 0;
      assert (2 * v + bit) / 2 == v && (2 * v + bit) % 2 == bit;
      assert bits[..n] == bits[..n - 1] + [bits[n - 1]];
    }
  }

  lemma {:induction false} BitsOfWholeBytes(bits: seq<bool>)
    requires LeftOver(bits) == []
    ensures BitsOf(WholeBytes(bits)) == bits
    decreases |bits|
  {
    if |bits| >= 8 {
      BitsOfWholeBytes(bits[8..]);
      BitStringOfValue(bits[..8], 8);
      assert bits == bits[..8] + bits[8..] && bits[..8][..8] == bits[..8];
    }
  }

  /** Padding completes the last byte. */
  lemma PaddedWhole(bits: seq<bool>)
    ensures LeftOver(Padded(bits)) == []
  {
    Append(bits, []);
    if LeftOver(bits) != [] {
      var ones := Ones(8 - |LeftOver(bits)|);
      Append(bits, ones);
      assert LeftOver(LeftOver(bits) + ones) == LeftOver((LeftOver(bits) + ones)[8..]);
    }
  }

  // ----- Shifts -----------------------------------------------------------------------------------

  lemma {:induction false} ShlTwice(n: nat, j: nat, k: nat)
    ensures Shl(Shl(n, j), k) == Shl(n, j + k)
    decreases k
  {
    if k > 0 { ShlTwice(n, j, k - 1); }
  }

  /** Shifting left and right again. */
  lemma {:induction false} ShrOfShl(n: nat, j: nat, k: nat)
    requires j <= k
    ensures Shr(Shl(n, j), k) == Shr(n, k - j)
    decreases j
  {
    if 0 < j {
      assert Shl(n, j) / 2 == Shl(n, j - 1);
      ShrOfShl(n, j - 1, k - 1);
    }
  }

  /** A word keeps its low bits. */
  lemma {:induction false} LowPartOfShl(n: nat, k: nat, w: nat)
    requires k <= w
    ensures LowPart(Shl(n, k), w) == Shl(LowPart(n, w - k), k)
    decreases k
  {
    if k > 0 {
      assert Shl(n, k) / 2 == Shl(n, k - 1);
      LowPartOfShl(n, k - 1, w - 1);
    }
  }

  /** Only the low bits are in the bit string. */
  lemma {:induction false} BitStringLow(n: nat, m: nat, w: nat)
    requires m <= w
    ensures BitString(LowPart(n, w), m) == BitString(n, m)
    decreases m
  {
    if m > 0 {
      assert LowPart(n, w) / 2 == LowPart(n / 2, w - 1) && LowPart(n, w) % 2 == n % 2;
      BitStringLow(n / 2, m - 1, w - 1);
    }
  }

  /** Bits appended to a number. */
  lemma {:induction false} BitStringAppend(n: nat, m: nat, code: nat, k: nat)
    requires code < Pow2(k)
    ensures BitString(Shl(n, k) + code, m + k) == BitString(n, m) + BitString(code, k)
    decreases k
  {
    if k > 0 {
      assert (Shl(n, k) + code) / 2 == Shl(n, k - 1) + code / 2 && (Shl(n, k) + code) % 2 == code % 2;
      BitStringAppend(n, m, code / 2, k - 1);
      assert BitString(n, m) + (BitString(code / 2, k - 1) + [code % 2 == 1])
          == (BitString(n, m) + BitString(code / 2, k - 1)) + [code % 2 == 1];
    } else {
      assert BitString(n, m) + [] == BitString(n, m);
    }
  }

  /** A number's highest eight of `n` bits, as a byte. */
  lemma TopByte(a: nat, n: nat)
    requires n >= 8
    ensures ByteOf(BitString(a, n)[..8]) as nat == LowPart(Shr(a, n - 8), 8)
    ensures BitString(a, n)[8..] == BitString(a, n - 8)
  {
    BitStringStart(a, n, 8);
    var s := BitString(Shr(a, n - 8), 8);
    assert s + [] == s;
    BitsValueInverts(Shr(a, n - 8), 8, []);
    BitStringEnd(a, n, 8);
  }

  lemma {:induction false} BitStringEnd(a: nat, n: nat, k: nat)
    requires k <= n
    ensures BitString(a, n)[k..] == BitString(a, n - k)
    decreases n
  {
    if k < n { BitStringEnd(a / 2, n - 1, k); }
  }

  /** Bitwise or. */
  function BitOr(x: nat, y: nat): nat
    decreases x + y
  {
    if x == 0 then y else if y == 0 then x
    else 2 * BitOr(x / 2, y / 2) + if x % 2 == 1 || y % 2 == 1 then 1 else 0
  }

  /** Bits put where there are none are added. */
  lemma {:induction false} OrDisjoint(n: nat, y: nat, k: nat)
    requires y < Pow2(k)
    ensures BitOr(Shl(n, k), y) == Shl(n, k) + y
    decreases k
  {
    if k > 0 && y > 0 && Shl(n, k) > 0 {
      assert Shl(n, k) / 2 == Shl(n, k - 1) && Shl(n, k) % 2 == 0;
      OrDisjoint(n, y / 2, k - 1);
    }
  }
}
