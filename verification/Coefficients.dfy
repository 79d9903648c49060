/** DCT coefficients, blocks of them in zigzag order, and the point transforms
    of successive approximation (section G.1.2 of ITU-T T.81).
 */
module Coefficients {

  /** JCOEF: a 16-bit signed integer. */
  type Coef = x: int | -0x8000 <= x < 0x8000

  /** Conversion to a 16-bit signed integer. */
  function ToCoef(x: int): Coef {
    (x + 0x8000) % 0x10000 - 0x8000
  }

  const DCTSIZE2 := 64

  /** Element k is the coefficient at zigzag position k. */
  type Block = b: seq<Coef> | |b| == DCTSIZE2 witness seq(DCTSIZE2, _ => 0)

  function Abs(x: int): nat {
    if x < 0 then -x else x
  }

  function Signed(v: int, negative: bool): int {
    if negative then -v else v
  }

  /** Arithmetic right shift: each place is a division by two rounding down. */
  function Shr(x: int, k: nat): (y: int)
    ensures x >= 0 ==> 0 <= y <= x
    ensures x < 0 ==> x <= y < 0
    decreases k
  {
    if k == 0 then x else Shr(x / 2, k - 1)
  }

  function ShiftUp(x: int, k: nat): int {
    if k == 0 then x else 2 * ShiftUp(x, k - 1)
  }

  lemma {:induction false} ShrSnoc(x: int, k: nat)
    ensures Shr(x, k + 1) == Shr(x, k) / 2
    decreases k
  {
    if k > 0 { ShrSnoc(x / 2, k - 1); }
  }

  lemma {:induction false} ShiftUpSnoc(x: int, k: nat)
    ensures ShiftUp(2 * x, k) == ShiftUp(x, k + 1)
    decreases k
  {
    if k > 0 { ShiftUpSnoc(x, k - 1); }
  }

  lemma {:induction false} ShiftUpAdd(x: int, y: int, k: nat)
    ensures ShiftUp(x + y, k) == ShiftUp(x, k) + ShiftUp(y, k)
    decreases k
  {
    if k > 0 { ShiftUpAdd(x, y, k - 1); }
  }

  lemma {:induction false} ShiftUpSign(x: int, k: nat)
    ensures ShiftUp(-x, k) == -ShiftUp(x, k)
    ensures x > 0 ==> ShiftUp(x, k) >= x
    ensures x == 0 ==> ShiftUp(x, k) == 0
    decreases k
  {
    if k > 0 { ShiftUpSign(x, k - 1); }
  }

  /** Shifting right and back rounds down. */
  lemma {:induction false} ShrShiftUp(x: int, k: nat)
    ensures ShiftUp(Shr(x, k), k) <= x
    ensures x >= 0 ==> 0 <= ShiftUp(Shr(x, k), k)
    ensures -0x8000 <= x && k <= 15 ==> -0x8000 <= ShiftUp(Shr(x, k), k)
    decreases k
  {
    if k > 0 {
      ShrShiftUp(x / 2, k - 1);
      if -0x8000 <= x && k <= 15 {
        ShiftUpRange(x / 2, k - 1);
      }
    }
  }

  /** A multiple of 2^15 bounds what rounding down can reach. */
  lemma {:induction false} ShiftUpRange(x: int, k: nat)
    requires k <= 14 && -0x4000 <= x
    ensures -0x4000 <= ShiftUp(Shr(x, k), k)
  {
    ShiftUpFloor(x, k, 14);
  }

  lemma {:induction false} ShiftUpFloor(x: int, k: nat, top: nat)
    requires k <= top && -ShiftUp(1, top) <= x
    ensures -ShiftUp(1, top) <= ShiftUp(Shr(x, k), k)
    decreases k
  {
    if k > 0 {
      assert ShiftUp(1, top) == 2 * ShiftUp(1, top - 1);
      ShiftUpFloor(x / 2, k - 1, top - 1);
    }
  }

  // ----- AC coefficients -------------------------------------------------------

  /** The magnitude after the AC point transform, which rounds toward zero. */
  function Mag(x: int, al: nat): nat {
    Shr(Abs(x), al)
  }

  /** The value a decoder can know of `x` when its bits below `al` are unsent. */
  function Approx(x: int, al: nat): int {
    if x < 0 then -ShiftUp(Mag(x, al), al) else ShiftUp(Mag(x, al), al)
  }

  lemma ApproxIsCoef(x: Coef, al: nat)
    ensures -0x8000 <= Approx(x, al) < 0x8000
    ensures Approx(x, al) == 0 <==> Mag(x, al) == 0
    ensures Mag(x, al) != 0 ==> (Approx(x, al) < 0 <==> x < 0)
  {
    ShrShiftUp(Abs(x), al);
    ShiftUpSign(Mag(x, al), al);
  }

  lemma MagBound(x: Coef, al: nat)
    ensures Mag(x, al) <= 0x8000
  {
    hide Shr, ShiftUp;
    ShrShiftUp(Abs(x), al);
    ShiftUpSign(Mag(x, al), al);
  }

  lemma ApproxZero(x: int)
    ensures Approx(x, 0) == x
  {
  }

  /** Sending one more bit doubles the magnitude and adds that bit. */
  lemma MagRefines(x: int, al: nat)
    ensures Mag(x, al + 1) == Mag(x, al) / 2
    ensures Approx(x, al) == Approx(x, al + 1) + (if x < 0 then -1 else 1) * ShiftUp(Mag(x, al) % 2, al)
  {
    ShrSnoc(Abs(x), al);
    var m := Mag(x, al);
    ShiftUpSnoc(m / 2, al);
    ShiftUpAdd(2 * (m / 2), m % 2, al);
  }

  /** The shift rounds down to a multiple of 2^k. */
  lemma {:induction false} ShrBetween(x: int, k: nat)
    ensures ShiftUp(Shr(x, k), k) <= x < ShiftUp(Shr(x, k) + 1, k)
    decreases k
  {
    if k > 0 { ShrBetween(x / 2, k - 1); }
  }

  /** What a decoder can know: of an AC coefficient the multiple of 2^al next to it
      toward zero, of a DC coefficient the one next to it below.
   */
  lemma PointTransforms(x: int, al: nat)
    ensures var m := Mag(x, al);
            && ShiftUp(m, al) <= Abs(x) < ShiftUp(m + 1, al)
            && Approx(x, al) == Signed(ShiftUp(m, al), x < 0)
    ensures var q := Shr(x, al);
            ShiftUp(q, al) <= x < ShiftUp(q + 1, al) && DcApprox(x, al) == ShiftUp(q, al)
  {
    hide Shr, ShiftUp;
    ShrBetween(Abs(x), al);
    ShrBetween(x, al);
  }

  // ----- DC coefficients -------------------------------------------------------

  /** The value a decoder can know of a DC coefficient. */
  function DcApprox(x: int, al: nat): int {
    ShiftUp(Shr(x, al), al)
  }

  lemma DcRefines(x: int, al: nat)
    ensures DcApprox(x, al) == DcApprox(x, al + 1) + ShiftUp(Shr(x, al) % 2, al)
  {
    ShrSnoc(x, al);
    var m := Shr(x, al);
    ShiftUpSnoc(m / 2, al);
    ShiftUpAdd(2 * (m / 2), m % 2, al);
  }

  lemma DcApproxIsCoef(x: Coef, al: nat)
    requires al <= 15
    ensures -0x8000 <= DcApprox(x, al) < 0x8000
  {
    ShrShiftUp(x, al);
  }
}
