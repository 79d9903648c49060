/** Code bytes as numbers: a byte string is at once a big integer in base 256,
    a fraction of the unit interval, and, with zero bytes stuffed after 0xFF,
    a piece of the file.
 */
module CodeBytes {
  import opened IdealCoder

  type byte = b: int | 0 <= b < 256

  function Pow2(n: nat): (p: nat)
    ensures p >= 1
  {
    if n == 0 then 1 else 2 * Pow2(n - 1)
  }

  lemma {:induction false} Pow2Add(m: nat, n: nat)
    ensures Pow2(m + n) == Pow2(m) * Pow2(n)
    decreases n
  {
    if n > 0 {
      Pow2Add(m, n - 1);
      assert Pow2(m + n) == 2 * (Pow2(m) * Pow2(n - 1));
    }
  }

  /** `n` shifted left by `k` bits. */
  function Shl(n: nat, k: nat): nat {
    if k == 0 then n else 2 * Shl(n, k - 1)
  }

  lemma {:induction false} ShlDouble(n: nat, k: nat)
    ensures Shl(2 * n, k) == 2 * Shl(n, k)
    decreases k
  {
    if k > 0 { ShlDouble(n, k - 1); }
  }

  lemma {:induction false} ShlAdd(m: nat, n: nat, k: nat)
    ensures Shl(m + n, k) == Shl(m, k) + Shl(n, k)
    decreases k
  {
    if k > 0 { ShlAdd(m, n, k - 1); }
  }

  lemma {:induction false} ShlIsProduct(n: nat, k: nat)
    ensures Shl(n, k) == n * Pow2(k)
    decreases k
  {
    if k > 0 {
      ShlIsProduct(n, k - 1);
      var p := Pow2(k - 1);
      assert n * (2 * p) == 2 * (n * p);
    }
  }

  /** The same shift of a real number. */
  ghost function ShlReal(x: real, k: nat): real
    decreases k
  {
    if k == 0 then x else ShlReal(2.0 * x, k - 1)
  }

  lemma {:induction false} ShlDifference(x: real, n: nat, k: nat)
    ensures ShlReal(x - n as real, k) == ShlReal(x, k) - Shl(n, k) as real
    ensures x >= n as real <==> ShlReal(x, k) >= Shl(n, k) as real
    decreases k
  {
    if k > 0 {
      assert 2.0 * (x - n as real) == 2.0 * x - (2 * n) as real;
      ShlDifference(2.0 * x, 2 * n, k - 1);
      ShlDouble(n, k - 1);
    }
  }

  function Repeat(b: byte, n: nat): (s: seq<byte>)
    ensures |s| == n && forall i :: 0 <= i < n ==> s[i] == b
  {
    seq(n, _ => b)
  }

  lemma RepeatSnoc(b: byte, n: nat)
    ensures Repeat(b, n + 1) == Repeat(b, n) + [b] == [b] + Repeat(b, n)
  {
  }

  // ----- Big integer in base 256 --------------------------------------------

  ghost function Number(ds: seq<byte>): nat {
    if ds == [] then 0 else 256 * Number(ds[..|ds| - 1]) + ds[|ds| - 1]
  }

  lemma NumberSnoc(ds: seq<byte>, b: byte)
    ensures Number(ds + [b]) == 256 * Number(ds) + b
  {
    assert (ds + [b])[..|ds|] == ds;
  }

  /** Adding one turns trailing 0xFF bytes into 0x00 and carries into the byte
      before them.
   */
  lemma {:induction false} NumberCarry(pre: seq<byte>, b: byte, stacked: nat)
    requires b < 255
    ensures Number(pre + [b + 1] + Repeat(0, stacked)) == Number(pre + [b] + Repeat(0xFF, stacked)) + 1
    decreases stacked
  {
    if stacked == 0 {
      NumberSnoc(pre, b);
      NumberSnoc(pre, b + 1);
      assert pre + [b] + Repeat(0xFF, 0) == pre + [b];
      assert pre + [b + 1] + Repeat(0, 0) == pre + [b + 1];
    } else {
      var s := stacked - 1;
      NumberCarry(pre, b, s);
      NumberSnoc(pre + [b] + Repeat(0xFF, s), 0xFF);
      NumberSnoc(pre + [b + 1] + Repeat(0, s), 0);
      RepeatSnoc(0xFF, s);
      RepeatSnoc(0, s);
      assert pre + [b] + Repeat(0xFF, s) + [0xFF] == pre + [b] + Repeat(0xFF, stacked);
      assert pre + [b + 1] + Repeat(0, s) + [0] == pre + [b + 1] + Repeat(0, stacked);
    }
  }

  /** A run of 0xFF bytes is one less than a power of 256. */
  lemma {:induction false} NumberAllOnes(n: nat)
    ensures Number(Repeat(0xFF, n)) + 1 == Pow2(8 * n)
    decreases n
  {
    if n > 0 {
      NumberAllOnes(n - 1);
      RepeatSnoc(0xFF, n - 1);
      NumberSnoc(Repeat(0xFF, n - 1), 0xFF);
      assert Pow2(8) == 256;
      hide Pow2, Number, Repeat;
      Pow2Add(8 * (n - 1), 8);
      assert 8 * (n - 1) + 8 == 8 * n;
    }
  }

  // ----- Fraction of the unit interval ---------------------------------------

  ghost function Fraction(ds: seq<byte>): (x: real)
    ensures 0.0 <= x < 1.0
  {
    if ds == [] then 0.0 else (ds[0] as real + Fraction(ds[1..])) / 256.0
  }

  lemma {:induction false} FractionTrailingZeros(ds: seq<byte>, n: nat)
    ensures Fraction(ds + Repeat(0, n)) == Fraction(ds)
    decreases |ds| + n
  {
    if ds != [] {
      assert (ds + Repeat(0, n))[1..] == ds[1..] + Repeat(0, n);
      FractionTrailingZeros(ds[1..], n);
    } else if n > 0 {
      assert (ds + Repeat(0, n))[1..] == [] + Repeat(0, n - 1);
      FractionTrailingZeros([], n - 1);
    }
  }

  ghost function Unit(b: byte, place: nat): real {
    if place == 0 then b as real else Unit(b, place - 1) / 256.0
  }

  lemma {:induction false} FractionSnoc(ds: seq<byte>, b: byte)
    ensures Fraction(ds + [b]) == Fraction(ds) + Unit(b, |ds| + 1)
    decreases |ds|
  {
    if ds == [] {
      assert ([] + [b])[1..] == [];
      assert Unit(b, 1) == Unit(b, 0) / 256.0;
    } else {
      assert (ds + [b])[1..] == ds[1..] + [b];
      FractionSnoc(ds[1..], b);
    }
  }

  lemma {:induction false} ScaledAdd(x: real, y: real, n: nat)
    ensures Scaled(x + y, n) == Scaled(x, n) + Scaled(y, n)
    decreases n
  {
    if n > 0 { ScaledAdd(x, y, n - 1); }
  }

  lemma {:induction false} ScaledShift(x: real, m: nat, n: nat)
    ensures Scaled(x, m + n) == Pow2(n) as real * Scaled(x, m)
    decreases n
  {
    if n > 0 {
      ScaledShift(x, m, n - 1);
      var p, y := Pow2(n - 1) as real, Scaled(x, m);
      assert Pow2(n) as real == 2.0 * p;
      assert 2.0 * (p * y) == (2.0 * p) * y;
    }
  }

  lemma {:induction false} ScaledDiv256(x: real, n: nat)
    ensures Scaled(x / 256.0, n + 8) == Scaled(x, n)
    decreases n
  {
    if n == 0 {
      var y := x / 256.0;
      assert Scaled(y, 1) == 2.0 * Scaled(y, 0);
      assert Scaled(y, 2) == 4.0 * Scaled(y, 0);
      assert Scaled(y, 3) == 8.0 * Scaled(y, 0);
      assert Scaled(y, 4) == 16.0 * Scaled(y, 0);
      assert Scaled(y, 6) == 4.0 * Scaled(y, 4);
      assert Scaled(y, 8) == 4.0 * Scaled(y, 6);
    } else {
      ScaledDiv256(x, n - 1);
    }
  }

  lemma {:induction false} ScaledUnit(b: byte, k: nat)
    ensures Scaled(Unit(b, k + 2), 8 * k) == b as real
    decreases k
  {
    if k == 0 {
      assert Unit(b, 2) == Unit(b, 1) / 256.0;
      assert Unit(b, 1) == Unit(b, 0) / 256.0;
    } else {
      ScaledUnit(b, k - 1);
      ScaledDiv256(Unit(b, k + 1), 8 * (k - 1));
      assert Unit(b, k + 2) == Unit(b, k + 1) / 256.0;
    }
  }

  /** The fraction of a byte string, scaled to its own length, is its number. */
  lemma {:induction false} FractionIsNumber(ds: seq<byte>)
    requires |ds| >= 2
    ensures Scaled(Fraction(ds), 8 * (|ds| - 2)) == Number(ds) as real
    decreases |ds|
  {
    var b := ds[|ds| - 1];
    var init := ds[..|ds| - 1];
    assert ds == init + [b];
    if |ds| == 2 {
      assert ds[1..] == [b] && [b][1..] == [] && init == [ds[0]] && init[..0] == [];
      assert Fraction([b]) == (b as real + Fraction([])) / 256.0;
      assert Number(init) == ds[0];
    } else {
      var k := |ds| - 3;
      FractionIsNumber(init);
      FractionSnoc(init, b);
      ScaledAdd(Fraction(init), Unit(b, |init| + 1), 8 * (k + 1));
      ScaledUnit(b, k + 1);
      ScaledShift(Fraction(init), 8 * k, 8);
      assert Pow2(8) == 256;
      NumberSnoc(init, b);
    }
  }

  // ----- Byte stuffing --------------------------------------------------------

  ghost function Stuff(ds: seq<byte>): seq<byte> {
    if ds == [] then []
    else Stuff(ds[..|ds| - 1]) + if ds[|ds| - 1] == 0xFF then [0xFF, 0x00] else [ds[|ds| - 1]]
  }

  lemma StuffSnoc(ds: seq<byte>, b: byte)
    ensures Stuff(ds + [b]) == Stuff(ds) + if b == 0xFF then [0xFF, 0x00] else [b]
  {
    assert (ds + [b])[..|ds|] == ds;
  }

  /** The code bytes an entropy decoder reads from `data`: it drops a zero byte
      stuffed after 0xFF, and stops at the first marker or at the end of data.
   */
  ghost function Unstuff(data: seq<byte>): seq<byte>
    decreases |data|, 1
  {
    if data == [] then []
    else if data[0] == 0xFF then AfterFF(data[1..])
    else [data[0]] + Unstuff(data[1..])
  }

  /** What follows an 0xFF: fill bytes, then a stuffed zero or a marker code. */
  ghost function AfterFF(data: seq<byte>): seq<byte>
    decreases |data|, 0
  {
    if data == [] then []
    else if data[0] == 0xFF then AfterFF(data[1..])
    else if data[0] == 0 then [0xFF] + Unstuff(data[1..])
    else []
  }

  lemma UnstuffOne(b: byte, tail: seq<byte>)
    ensures Unstuff((if b == 0xFF then [0xFF, 0x00] else [b]) + tail) == [b] + Unstuff(tail)
  {
    if b == 0xFF {
      assert ([0xFF, 0x00] + tail)[1..] == [0x00] + tail && ([0x00] + tail)[1..] == tail;
    } else {
      assert ([b] + tail)[1..] == tail;
    }
  }

  lemma {:induction false} UnstuffStuffed(ds: seq<byte>, tail: seq<byte>)
    ensures Unstuff(Stuff(ds) + tail) == ds + Unstuff(tail)
    decreases |ds|
  {
    hide Unstuff;
    if ds == [] {
      assert Stuff(ds) + tail == tail;
    } else {
      var init, b := ds[..|ds| - 1], ds[|ds| - 1];
      var piece := if b == 0xFF then [0xFF, 0x00] else [b];
      assert Stuff(ds) + tail == Stuff(init) + (piece + tail);
      UnstuffStuffed(init, piece + tail);
      UnstuffOne(b, tail);
      assert ds == init + [b];
      assert init + ([b] + Unstuff(tail)) == ds + Unstuff(tail);
    }
  }

  /** No marker can appear inside stuffed bytes: 0xFF is always followed by 0. */
  lemma {:induction false} StuffedFFIsFollowedByZero(ds: seq<byte>, i: nat)
    requires i < |Stuff(ds)| && Stuff(ds)[i] == 0xFF
    ensures i + 1 < |Stuff(ds)| && Stuff(ds)[i + 1] == 0
    decreases |ds|
  {
    var init := ds[..|ds| - 1];
    if i < |Stuff(init)| {
      StuffedFFIsFollowedByZero(init, i);
    }
  }

  /** The end-of-image marker a source manager supplies at the end of its data
      adds no code bytes.
   */
  lemma {:induction false} UnstuffThenEoi(data: seq<byte>)
    ensures Unstuff(data + [0xFF, 0xD9]) == Unstuff(data)
    ensures AfterFF(data + [0xFF, 0xD9]) == AfterFF(data)
    decreases |data|
  {
    if data == [] {
      assert [0xFF, 0xD9][1..] == [0xD9];
      assert data + [0xFF, 0xD9] == [0xFF, 0xD9];
    } else {
      assert (data + [0xFF, 0xD9])[1..] == data[1..] + [0xFF, 0xD9];
      UnstuffThenEoi(data[1..]);
    }
  }

  /** Fill bytes and a marker end the code. */
  lemma {:induction false} MarkerEndsCode(fill: nat, marker: byte, rest: seq<byte>)
    requires marker != 0 && marker != 0xFF
    ensures Unstuff(Repeat(0xFF, fill + 1) + [marker] + rest) == []
    decreases fill
  {
    var data := Repeat(0xFF, fill + 1) + [marker] + rest;
    assert data[0] == 0xFF && data[1..] == Repeat(0xFF, fill) + [marker] + rest;
    if fill == 0 {
      assert data[1..][0] == marker;
    } else {
      MarkerEndsCode(fill - 1, marker, rest);
    }
  }
}
