/** The arithmetic entropy encoder's registers and byte output (jcarith.c:
    emit_byte, arith_encode, finish_pass and the register set-up of start_pass).
 */
module ArithEncoder {
  import opened ProbabilityTable
  import opened IdealCoder
  import opened CodeBytes

  /** The registers represent `iv`: the digits already moved out of C, followed
      by C itself, are the interval's bottom.  The last bound keeps the three
      spacer bits of C effective.
   */
  ghost predicate Represents(digits: seq<byte>, c: nat, a: nat, ct: nat, iv: Interval) {
    && ct <= 11 && a >= 1
    && (ct > 8 ==> digits == [])
    && iv.width == a
    && iv.shifts + ct == 11 + 8 * |digits|
    && iv.low == Shl(Number(digits), 27 - ct) + c
    && iv.low + a <= Pow2(16 + iv.shifts)
    && c + a <= Pow2(27 - ct) + Pow2(24 - ct)
  }

  ghost function Doubled(iv: Interval): Interval {
    Interval(2 * iv.low, 2 * iv.width, iv.shifts + 1)
  }

  lemma ShiftRepresents(digits: seq<byte>, c: nat, a: nat, ct: nat, iv: Interval)
    requires Represents(digits, c, a, ct, iv) && ct >= 1
    ensures Represents(digits, 2 * c, 2 * a, ct - 1, Doubled(iv))
  {
    assert Shl(Number(digits), 28 - ct) == 2 * Shl(Number(digits), 27 - ct);
    assert Pow2(28 - ct) == 2 * Pow2(27 - ct) && Pow2(25 - ct) == 2 * Pow2(24 - ct);
    assert Pow2(16 + iv.shifts + 1) == 2 * Pow2(16 + iv.shifts);
  }

  /** Shifting C until a byte is complete, as finish_pass does in one go. */
  lemma {:induction false} ShiftOutRepresents(digits: seq<byte>, c: nat, a: nat, ct: nat, iv: Interval)
    requires Represents(digits, c, a, ct, iv)
    ensures Represents(digits, Shl(c, ct), Shl(a, ct), 0,
                       Interval(Shl(iv.low, ct), Shl(iv.width, ct), iv.shifts + ct))
    decreases ct
  {
    hide Represents, Number, Pow2;
    if ct > 0 {
      ShiftRepresents(digits, c, a, ct, iv);
      ShiftOutRepresents(digits, 2 * c, 2 * a, ct - 1, Doubled(iv));
      ShlDouble(c, ct - 1);
      ShlDouble(a, ct - 1);
      ShlDouble(iv.low, ct - 1);
    }
  }

  lemma ShlLiterals(n: nat)
    ensures Shl(n, 11) == 0x800 * n && Shl(n, 16) == 0x10000 * n && Shl(n, 19) == 0x80000 * n
    ensures Shl(n, 27) == 0x8000000 * n
    ensures Pow2(13) == 0x2000 && Pow2(16) == 0x10000
    ensures Pow2(19) == 0x80000 && Pow2(24) == 0x1000000 && Pow2(27) == 0x8000000
  {
    ShlIsProduct(n, 11);
    ShlIsProduct(n, 16);
    ShlIsProduct(n, 19);
    ShlIsProduct(n, 27);
    assert Pow2(11) == 0x800 && Pow2(13) == 0x2000 && Pow2(16) == 0x10000;
    assert Pow2(19) == 0x80000 && Pow2(24) == 0x1000000 && Pow2(27) == 0x8000000;
  }

  lemma SplitRepresents(digits: seq<byte>, c: nat, a: nat, ct: nat, iv: Interval, add: nat, width: nat)
    requires Represents(digits, c, a, ct, iv) && width >= 1 && add + width <= a
    ensures Represents(digits, c + add, width, ct, Interval(iv.low + add, width, iv.shifts))
  {
  }

  /** When CT reaches zero the byte above bit 19 exceeds 0xFF by at most 0x20:
      a carry, if any, is one, and the byte after a carry is not 0xFF.
   */
  lemma CompleteByteBound(digits: seq<byte>, c: nat, a: nat, iv: Interval)
    requires Represents(digits, c, a, 0, iv)
    ensures c < 0x9000000 && c / 0x80000 < 0x120
  {
    ShlLiterals(0);
  }

  /** No carry ever leaves the first byte of the code. */
  lemma CarryHasRoom(stacked: nat, c: nat, a: nat, iv: Interval)
    requires Represents(Repeat(0xFF, stacked), c, a, 0, iv)
    ensures c < 0x8000000
  {
    var n := Number(Repeat(0xFF, stacked));
    ShlLiterals(n);
    NumberAllOnes(stacked);
    Pow2Add(8 * stacked, 27);
    assert Pow2(8 * stacked + 27) == 0x8000000 * (n + 1);
  }

  lemma MoveByteOut(digits: seq<byte>, digits': seq<byte>, c: nat, a: nat, iv: Interval)
    requires Represents(digits, c, a, 0, iv) && a <= 0x10000
    requires |digits'| == |digits| + 1
    requires Number(digits') == 256 * Number(digits) + c / 0x80000
    ensures Represents(digits', c % 0x80000, a, 8, iv)
  {
    ShlLiterals(Number(digits));
    ShlLiterals(Number(digits'));
  }

  /** The digits after a carry into the buffered byte `b`. */
  lemma CarryDigits(pre: seq<byte>, b: byte, stacked: nat, next: byte)
    requires b < 255
    ensures Number(pre + [b + 1] + Repeat(0, stacked) + [next])
         == 256 * Number(pre + [b] + Repeat(0xFF, stacked)) + 256 + next
  {
    NumberCarry(pre, b, stacked);
    NumberSnoc(pre + [b + 1] + Repeat(0, stacked), next);
  }

  /** `code` is the number in the interval with the most trailing zero bits. */
  ghost predicate RoundestIn(code: nat, iv: Interval) {
    && iv.low <= code < iv.low + iv.width
    && code % 0x8000 == 0
    && (code % 0x10000 != 0 ==> forall v :: iv.low <= v < iv.low + iv.width ==> v % 0x10000 != 0)
  }

  ghost predicate NoTrailingZero(ds: seq<byte>) {
    ds != [] ==> ds[|ds| - 1] != 0
  }

  /** The value finish_pass picks in [c, c + a): a multiple of 0x10000 if there
      is one, else the multiple of 0x8000.
   */
  function FinalCode(c: nat, a: nat): (code: nat)
    requires 0x8000 <= a <= 0x10000
    ensures c <= code < c + a && code % 0x8000 == 0
    ensures code % 0x10000 == 0 || (c + a - 1) / 0x10000 * 0x10000 < c
  {
    var k := (c + a - 1) / 0x10000;
    assert (0x10000 * k) % 0x8000 == 0 && (0x10000 * k + 0x8000) % 0x8000 == 0;
    var temp := k * 0x10000;
    if temp < c then temp + 0x8000 else temp
  }

  lemma RoundestCode(digits: seq<byte>, c: nat, a: nat, ct: nat, iv: Interval)
    requires Represents(digits, c, a, ct, iv) && 0x8000 <= a <= 0x10000
    ensures RoundestIn(iv.low + FinalCode(c, a) - c, iv)
  {
    ShlSplit(Number(digits), 11 - ct, 16);
    ShlLiterals(0);
    RoundestAbove(Shl(Number(digits), 11 - ct), c, FinalCode(c, a), iv);
  }

  lemma RoundestAbove(n: nat, c: nat, code: nat, iv: Interval)
    requires iv.low == 0x10000 * n + c && c <= code < c + iv.width && code % 0x8000 == 0
    requires code % 0x10000 == 0 || (c + iv.width - 1) / 0x10000 * 0x10000 < c
    ensures RoundestIn(iv.low + code - c, iv)
  {
    assert iv.low + code - c == 0x10000 * n + code;
    assert (0x10000 * n + code) % 0x8000 == 0 by {
      assert 0x10000 * n + code == 0x8000 * (2 * n + code / 0x8000);
    }
    if code % 0x10000 != 0 {
      forall v | iv.low <= v < iv.low + iv.width ensures v % 0x10000 != 0 {
        if v % 0x10000 == 0 {
          MultipleInRange(v / 0x10000 - n, c, iv.width);
        }
      }
    }
  }

  lemma MultipleInRange(k: int, c: nat, a: nat)
    requires c <= 0x10000 * k < c + a
    ensures c <= (c + a - 1) / 0x10000 * 0x10000
  {
    var q := (c + a - 1) / 0x10000;
    assert k <= q;
  }

  lemma {:induction false} ShlSplit(n: nat, j: nat, k: nat)
    ensures Shl(n, j + k) == Pow2(k) * Shl(n, j)
    decreases k
  {
    if k > 0 {
      ShlSplit(n, j, k - 1);
    }
  }

  /** The interval from the code value `add` above the bottom, shifted to a
      byte boundary.
   */
  ghost function FinalInterval(iv: Interval, add: nat, ct: nat): Interval
    requires add <= iv.width
  {
    Interval(Shl(iv.low + add, ct), Shl(iv.width - add, ct), iv.shifts + ct)
  }

  lemma FinalRegister(digits: seq<byte>, c: nat, a: nat, ct: nat, iv: Interval, add: nat)
    requires Represents(digits, c, a, ct, iv) && add < a
    ensures var last := FinalInterval(iv, add, ct); Represents(digits, Shl(c + add, ct), last.width, 0, last)
  {
    assert iv.width == a;
    hide Represents, Shl;
    SplitRepresents(digits, c, a, ct, iv, add, a - add);
    ShiftOutRepresents(digits, c + add, a - add, ct, Interval(iv.low + add, a - add, iv.shifts));
  }

  lemma {:induction false} ShlScaled(n: nat, k: nat)
    ensures Shl(0x800 * n, k) == 0x800 * Shl(n, k)
    decreases k
  {
    if k > 0 { ShlScaled(n, k - 1); }
  }

  /** The picked value has no bits below the last one finish_pass writes. */
  lemma PickedAligned(code: nat, ct: nat)
    requires code % 0x8000 == 0
    ensures Shl(code, ct) % 0x800 == 0
  {
    hide Shl;
    var n := code / 0x8000;
    assert code == 0x800 * (16 * n);
    ShlScaled(16 * n, ct);
  }

  /** Everything finish_pass needs to know about the value it picks. */
  lemma PickedCode(digits: seq<byte>, c: nat, a: nat, ct: nat, iv: Interval)
    requires Represents(digits, c, a, ct, iv) && 0x8000 <= a <= 0x10000
    ensures var pick := FinalCode(c, a);
            var last := FinalInterval(iv, pick - c, ct);
            && RoundestIn(iv.low + pick - c, iv)
            && Shl(pick, ct) % 0x800 == 0
            && Represents(digits, Shl(pick, ct), last.width, 0, last)
            && Shl(iv.low + pick - c, ct) == Shl(Number(digits), 27) + Shl(pick, ct)
  {
    hide Shl, Pow2, Number, RoundestIn;
    var pick := FinalCode(c, a);
    hide FinalCode;
    RoundestCode(digits, c, a, ct, iv);
    FinalRegister(digits, c, a, ct, iv, pick - c);
    PickedAligned(pick, ct);
  }

  /** C, from the carry bit down, once its low 11 bits are zero. */
  lemma BytesOfRegister(c: nat)
    ensures (c / 0x800) % 0x10000 == 256 * ((c / 0x80000) % 256) + (c / 0x800) % 256
    ensures c % 0x800 == 0 ==>
              c == 0x8000000 * (c / 0x8000000) + 0x80000 * ((c / 0x80000) % 256) + 0x800 * ((c / 0x800) % 256)
  {
    var q := c / 0x800;
    assert c / 0x80000 == q / 256 && c / 0x8000000 == q / 256 / 256;
  }

  /** The bytes of the shifted C, after the digits with its carry added, are
      the picked value.
   */
  lemma FinalFraction(digits: seq<byte>, pre: seq<byte>, c: nat, code: nat, ct: nat, iv: Interval)
    requires |pre| == |digits| && Number(pre) == Number(digits) + c / 0x8000000
    requires c % 0x800 == 0
    requires iv.shifts + ct == 11 + 8 * |digits|
    requires Shl(code, ct) == Shl(Number(digits), 27) + c
    ensures Scaled(Fraction(pre + [(c / 0x80000) % 256, (c / 0x800) % 256]), iv.shifts) == code as real
  {
    var high, low := (c / 0x80000) % 256, (c / 0x800) % 256;
    var full := pre + [high, low];
    NumberSnoc(pre, high);
    NumberSnoc(pre + [high], low);
    assert pre + [high] + [low] == full;
    BytesOfRegister(c);
    ShlLiterals(Number(digits));
    FractionAtScale(full, code, ct, iv.shifts);
  }

  lemma FractionAtScale(full: seq<byte>, code: nat, ct: nat, shifts: nat)
    requires |full| >= 2 && shifts + ct == 11 + 8 * (|full| - 2)
    requires Shl(code, ct) == 0x800 * Number(full)
    ensures Scaled(Fraction(full), shifts) == code as real
  {
    var x := Fraction(full);
    FractionIsNumber(full);
    Scaled11(x, 8 * (|full| - 2));
    UnscaleShl(x, shifts, ct, code);
  }

  lemma Scaled11(x: real, n: nat)
    ensures Scaled(x, n + 11) == 2048.0 * Scaled(x, n)
  {
    ScaledShift(x, n, 11);
    assert Pow2(11) == 0x800;
  }

  lemma {:induction false} UnscaleShl(x: real, n: nat, k: nat, code: nat)
    requires Scaled(x, n + k) == Shl(code, k) as real
    ensures Scaled(x, n) == code as real
    decreases k
  {
    if k > 0 {
      UnscaleShl(x, n, k - 1, code);
    }
  }

  class ArithEncoder {
    var c: nat        // C register, base of the coding interval
    var a: nat        // A register, size of the coding interval
    var sc: nat       // stacked 0xFF bytes, which a carry may still change
    var zc: nat       // pending 0x00 bytes, dropped if nothing follows them
    var ct: int       // shifts left until the next byte is complete
    var buffer: int   // most recent byte other than 0xFF, or -1
    const table: Table  // jpeg_aritab
    const stats: array<Stat>
    var output: seq<byte>

    ghost var emitted: seq<byte>  // output without the stuffed zero bytes
    ghost var iv: Interval        // the exact interval the registers represent

    /** The code bytes determined so far, up to one future carry. */
    ghost function Digits(): seq<byte>
      reads this
      requires buffer < 0xFF
    {
      emitted + Repeat(0, zc) + (if buffer >= 0 then [buffer] else []) + Repeat(0xFF, sc)
    }

    ghost predicate OutputValid()
      reads this
    {
      && -1 <= buffer < 0xFF
      && (buffer == -1 ==> zc == 0 && emitted == [])
      && output == Stuff(emitted)
      && NoTrailingZero(emitted)
    }

    ghost predicate Coding()
      reads this
    {
      && OutputValid()
      && 0 <= ct
      && a <= 0x10000
      && Represents(Digits(), c, a, ct, iv)
    }

    ghost predicate Valid()
      reads this
    {
      Coding() && iv.Normalized() && ct >= 1
    }

    ghost function State(): Encoder
      reads this, stats
    {
      Encoder(table, iv, stats[..])
    }

    constructor (stats: array<Stat>)
      ensures Valid() && this.stats == stats && State() == Encoder(JPEG_ARITAB, WHOLE, stats[..])
      ensures output == []
    {
      this.table, this.stats := JPEG_ARITAB, stats;
      c, a, sc, zc, ct, buffer := 0, 0x10000, 0, 0, 11, -1;
      output, emitted, iv := [], [], WHOLE;
      new;
      ShlLiterals(0);
    }

    method EmitByte(val: byte)
      modifies this`output
      ensures output == old(output) + [val]
    {
      output := output + [val];
    }

    /** One code byte, with a zero byte stuffed after 0xFF. */
    method EmitCodeByte(val: byte)
      requires output == Stuff(emitted)
      modifies this`output, this`emitted
      ensures output == Stuff(emitted) && emitted == old(emitted) + [val]
    {
      StuffSnoc(emitted, val);
      EmitByte(val);
      if val == 0xFF {
        EmitByte(0x00);
        assert old(output) + [0xFF] + [0x00] == old(output) + [0xFF, 0x00];
      }
      emitted := emitted + [val];
    }

    method EmitPendingZeros()
      requires output == Stuff(emitted)
      modifies this`output, this`emitted, this`zc
      ensures output == Stuff(emitted) && zc == 0
      ensures emitted == old(emitted) + Repeat(0, old(zc))
    {
      ghost var done := 0;
      while zc > 0
        invariant done + zc == old(zc)
        invariant output == Stuff(emitted) && emitted == old(emitted) + Repeat(0, done)
      {
        RepeatSnoc(0, done);
        EmitCodeByte(0x00);
        zc, done := zc - 1, done + 1;
      }
    }

    /** A carry: the buffered byte takes it, stacked 0xFF bytes become zeros. */
    method CarryOver()
      requires OutputValid()
      modifies this`output, this`emitted, this`zc, this`sc
      ensures output == Stuff(emitted) && sc == 0 && NoTrailingZero(emitted)
      ensures if buffer >= 0
              then emitted == old(emitted) + Repeat(0, old(zc)) + [buffer + 1] && zc == old(sc)
              else emitted == old(emitted) && zc == old(zc) + old(sc)
    {
      if buffer >= 0 {
        EmitPendingZeros();
        EmitCodeByte(buffer + 1);
      }
      zc := zc + sc;
      sc := 0;
    }

    /** No carry can reach the buffered and stacked bytes any more. */
    method ReleaseBytes()
      requires OutputValid()
      modifies this`output, this`emitted, this`zc, this`sc
      ensures output == Stuff(emitted) && sc == 0 && NoTrailingZero(emitted)
      ensures emitted + Repeat(0, zc) == old(Digits())
    {
      ReleaseBuffer();
      if sc > 0 {
        EmitPendingZeros();
        ReleaseStacked();
      }
    }

    method ReleaseBuffer()
      requires OutputValid()
      modifies this`output, this`emitted, this`zc
      ensures output == Stuff(emitted) && NoTrailingZero(emitted)
      ensures emitted + Repeat(0, zc) + Repeat(0xFF, sc) == old(Digits())
    {
      if buffer == 0 {
        RepeatSnoc(0, zc);
        zc := zc + 1;
      } else if buffer >= 0 {
        EmitPendingZeros();
        EmitCodeByte(buffer);
      }
    }

    method ReleaseStacked()
      requires output == Stuff(emitted) && sc > 0
      modifies this`output, this`emitted, this`sc
      ensures output == Stuff(emitted) && sc == 0
      ensures emitted == old(emitted) + Repeat(0xFF, old(sc))
      ensures NoTrailingZero(emitted)
    {
      ghost var done := 0;
      while sc > 0
        invariant done + sc == old(sc)
        invariant output == Stuff(emitted) && emitted == old(emitted) + Repeat(0xFF, done)
        invariant done > 0 ==> NoTrailingZero(emitted)
      {
        RepeatSnoc(0xFF, done);
        EmitCodeByte(0xFF);
        sc, done := sc - 1, done + 1;
      }
    }

    /** The byte `temp`, with a possible carry above it, joins the digits. */
    method AppendByte(temp: nat)
      requires OutputValid() && temp < 0x120
      requires temp > 0xFF ==> buffer >= 0
      modifies this`sc, this`zc, this`buffer, this`output, this`emitted
      ensures OutputValid()
      ensures |Digits()| == |old(Digits())| + 1
      ensures Number(Digits()) == 256 * Number(old(Digits())) + temp
    {
      ghost var before := Digits();
      if temp > 0xFF {
        ghost var pre, b, stacked := emitted + Repeat(0, zc), buffer, sc;
        CarryDigits(pre, b, stacked, temp - 256);
        CarryOver();
        buffer := temp - 256;
        assert Digits() == pre + [b + 1] + Repeat(0, stacked) + [temp - 256];
      } else {
        NumberSnoc(before, temp);
        if temp == 0xFF {
          RepeatSnoc(0xFF, sc);
          sc := sc + 1;
        } else {
          ReleaseBytes();
          buffer := temp;
        }
        assert Digits() == before + [temp];
      }
    }

    /** A byte is complete in C: move it to the buffer, resolving the carry. */
    method MoveByte()
      requires Coding() && ct == 0
      modifies this`c, this`ct, this`sc, this`zc, this`buffer, this`output, this`emitted
      ensures Coding() && ct == 8
    {
      ghost var before := Digits();
      CompleteByteBound(before, c, a, iv);
      var temp := c / 0x80000;
      if temp > 0xFF && buffer < 0 {
        assert before == Repeat(0xFF, sc);
        CarryHasRoom(sc, c, a, iv);
        assert false;
      }
      AppendByte(temp);
      MoveByteOut(before, Digits(), c, a, iv);
      c := c % 0x80000;
      ct := ct + 8;
    }

    /** Section D.1.6: shift until A is normalized, moving complete bytes out;
        nothing happens when the more probable symbol left A large enough.
     */
    method Renorm()
      requires Coding() && ct >= 1
      modifies this`c, this`a, this`sc, this`zc, this`ct, this`buffer, this`output, this`emitted, this`iv
      ensures Valid() && iv == Renormalize(old(iv))
    {
      hide Number, Shl, Pow2;
      while a < 0x8000
        invariant Coding() && ct >= 1
        invariant Renormalize(iv) == Renormalize(old(iv))
        decreases 0x10000 - a
      {
        ShiftRepresents(Digits(), c, a, ct, iv);
        a := 2 * a;
        c := 2 * c;
        ct := ct - 1;
        iv := Doubled(iv);
        if ct == 0 {
          MoveByte();
        }
      }
    }

    /** Sections D.1.4 and D.1.5: the registers and the bin after `val`. */
    static method Divide(t: Table, sv: Stat, c: nat, a: nat, val: bool) returns (c': nat, a': nat, next: Stat)
      requires 0x8000 <= a <= 0x10000
      ensures var sp := SplitFor(t, sv, a, val); c' == c + sp.add && a' == sp.width && next == sp.next
    {
      var qe := Qe(t, sv);
      c', a', next := c, a - qe, sv;
      if val != Mps(sv) {
        if a' >= qe {
          c' := c' + a';
          a' := qe;
        }
        next := AfterLps(t, sv);
      } else if a' < 0x8000 {
        if a' < qe {
          c' := c' + a';
          a' := qe;
        }
        next := AfterMps(t, sv);
      }
    }

    /** Sections D.1.4 to D.1.6: code the decision `val` with bin `st`. */
    method Encode(st: nat, val: bool)
      requires Valid() && st < stats.Length
      modifies this`c, this`a, this`sc, this`zc, this`ct, this`buffer, this`output, this`emitted, this`iv, stats
      ensures Valid()
      ensures State() == EncodeOne(old(State()), Decision(st, val))
    {
      hide Represents, Stuff, AfterLps, AfterMps, Qe, Renormalize;
      var next := TakeSubInterval(stats[st], val);
      stats[st] := next;
      assert stats[..] == old(stats[..])[st := next];
      Renorm();
    }

    method TakeSubInterval(sv: Stat, val: bool) returns (next: Stat)
      requires Valid()
      modifies this`c, this`a, this`iv
      ensures Coding()
      ensures var sp := SplitFor(table, sv, old(iv).width, val);
              && iv == Interval(old(iv).low + sp.add, sp.width, old(iv).shifts)
              && next == sp.next
    {
      hide Shl, Number, Pow2, Qe, AfterLps, AfterMps;
      ghost var sp := SplitFor(table, sv, a, val);
      SplitRepresents(Digits(), c, a, ct, iv, sp.add, sp.width);
      c, a, next := Divide(table, sv, c, a, val);
      iv := Interval(iv.low + sp.add, sp.width, iv.shifts);
    }

    /** Section D.1.8: pick the final code value and write what is left of it,
        except trailing zero bytes.
     */
    method Finish() returns (ghost code: nat)
      requires Valid()
      modifies this`c, this`sc, this`zc, this`output, this`emitted
      ensures output == Stuff(emitted) && NoTrailingZero(emitted)
      ensures RoundestIn(code, iv)
      ensures Scaled(Fraction(emitted), iv.shifts) == code as real
    {
      hide Stuff, Shl, Pow2, RoundestIn, Fraction, Repeat, Number, FinalCode, Scaled, NoTrailingZero;
      ghost var digits := Digits();
      var pick := FinalCode(c, a);
      ghost var last := FinalInterval(iv, pick - c, ct);
      code := iv.low + pick - c;
      PickedCode(digits, c, a, ct, iv);
      c := Shl(pick, ct);
      AddFinalCarry(last);
      ghost var pre := emitted + Repeat(0, zc);
      WriteFinalBytes(pre);
      FinalFraction(digits, pre, c, code, ct, iv);
    }

    /** The carry out of the shifted C, if any, reaches the pending bytes. */
    method AddFinalCarry(ghost last: Interval)
      requires OutputValid() && Represents(Digits(), c, last.width, 0, last)
      modifies this`sc, this`zc, this`output, this`emitted
      ensures output == Stuff(emitted) && NoTrailingZero(emitted)
      ensures |emitted + Repeat(0, zc)| == |old(Digits())|
      ensures Number(emitted + Repeat(0, zc)) == Number(old(Digits())) + c / 0x8000000
    {
      hide Represents, Stuff, Pow2;
      ghost var digits := Digits();
      CompleteByteBound(digits, c, last.width, last);
      if (c / 0x8000000) % 32 != 0 {
        if buffer < 0 {
          assert digits == Repeat(0xFF, sc);
          CarryHasRoom(sc, c, last.width, last);
          assert false;
        }
        NumberCarry(emitted + Repeat(0, zc), buffer, sc);
        CarryOver();
      } else {
        ReleaseBytes();
      }
    }

    /** The last two bytes of C, unless they would be trailing zeros. */
    method WriteFinalBytes(ghost pre: seq<byte>)
      requires output == Stuff(emitted) && NoTrailingZero(emitted)
      requires pre == emitted + Repeat(0, zc)
      modifies this`output, this`emitted, this`zc
      ensures output == Stuff(emitted) && NoTrailingZero(emitted)
      ensures Fraction(emitted) == Fraction(pre + [(c / 0x80000) % 256, (c / 0x800) % 256])
    {
      var high, low := (c / 0x80000) % 256, (c / 0x800) % 256;
      BytesOfRegister(c);
      if (c / 0x800) % 0x10000 != 0 {
        EmitPendingZeros();
        EmitCodeByte(high);
        if low != 0 {
          EmitCodeByte(low);
        }
        DropZeros(pre, high, low, emitted, if low == 0 then 1 else 0);
      } else {
        DropZeros(pre, high, low, emitted, zc + 2);
      }
    }
  }

  lemma DropZeros(pre: seq<byte>, high: byte, low: byte, kept: seq<byte>, dropped: nat)
    requires pre + [high, low] == kept + Repeat(0, dropped)
    ensures Fraction(kept) == Fraction(pre + [high, low])
  {
    FractionTrailingZeros(kept, dropped);
  }
}
