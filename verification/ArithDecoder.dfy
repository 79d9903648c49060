/** The arithmetic entropy decoder's registers and byte input (jdarith.c:
    get_byte, arith_decode and the register set-up of start_pass).
 */
module ArithDecoder {
  import opened ProbabilityTable
  import opened IdealCoder
  import opened CodeBytes

  lemma ShlByteReal(x: real)
    ensures ShlReal(x, 7) == 128.0 * x
  {
    assert ShlReal(x, 7) == ShlReal(4.0 * x, 5) == ShlReal(16.0 * x, 3) == ShlReal(64.0 * x, 1) == 128.0 * x;
  }

  class ArithDecoder {
    var c: nat        // C register: offset in the interval, then unused input bits
    var a: nat        // A register, size of the coding interval
    var ct: int       // input bits left in C; -16 and -8 while C is being filled
    const table: Table  // jpeg_aritab
    const stats: array<Stat>
    var data: seq<byte>    // the source manager's bytes
    var next: nat          // next_input_byte
    var unreadMarker: byte // nonzero once a marker has been found

    ghost var offset: Offset  // the exact offset the registers represent

    /** The code bytes not read yet. */
    ghost function Rest(): seq<byte>
      reads this
      requires next <= |data|
    {
      if unreadMarker != 0 then [] else Unstuff(data[next..])
    }

    ghost predicate Represents()
      reads this
    {
      && next <= |data|
      && if ct == -16 then
           a == 0 && c == 0 && offset == Offset(65536.0 * Fraction(Rest()), 0x10000)
         else if ct == -8 then
           a == 0 && c < 256 && offset == Offset(256.0 * (c as real + Fraction(Rest())), 0x10000)
         else
           0 <= ct <= 7 && offset.width == a && ShlReal(offset.pos, ct) == c as real + Fraction(Rest())
    }

    ghost predicate Valid()
      reads this
    {
      Represents() && offset.Valid()
    }

    ghost function State(): Decoder
      reads this, stats
    {
      Decoder(table, offset, stats[..])
    }

    constructor (stats: array<Stat>, data: seq<byte>)
      ensures Valid() && this.stats == stats
      ensures State() == Decoder(JPEG_ARITAB, Offset(65536.0 * Fraction(Unstuff(data)), 0x10000), stats[..])
    {
      table := JPEG_ARITAB;
      this.stats, this.data := stats, data;
      c, a, ct, next, unreadMarker := 0, 0, -16, 0, 0;
      offset := Offset(65536.0 * Fraction(Unstuff(data)), 0x10000);
      new;
      assert data[0..] == data;
    }

    /** The next input byte; a source that has run dry supplies an end-of-image
        marker.
     */
    method GetByte() returns (b: byte)
      requires next <= |data|
      modifies this`data, this`next
      ensures 1 <= next <= |data|
      ensures b == data[next - 1]
      ensures if old(next) < |old(data)| then data == old(data) && next == old(next) + 1
              else data == old(data) + [0xFF, 0xD9] && next == old(next) + 1
    {
      if next == |data| {
        data := data + [0xFF, 0xD9];
      }
      b := data[next];
      next := next + 1;
    }

    /** The next code byte: a stuffed zero is dropped, and from the first
        marker on the code continues with zero bytes.
     */
    method NextCodeByte() returns (val: byte)
      requires next <= |data|
      modifies this`data, this`next, this`unreadMarker
      ensures next <= |data|
      ensures if old(Rest()) == [] then val == 0 && Rest() == []
              else val == old(Rest())[0] && Rest() == old(Rest())[1..]
    {
      if unreadMarker != 0 {
        val := 0;
      } else {
        val := GetByte();
        UnstuffThenEoi([]);
        assert data[next - 1..] == [val] + data[next..];
        assert old(Rest()) == Unstuff(data[next - 1..]);
        if val == 0xFF {
          val := AfterMarkerPrefix();
        }
      }
    }

    /** After an 0xFF: swallow fill bytes, then a stuffed zero or a marker. */
    method AfterMarkerPrefix() returns (val: byte)
      requires next <= |data| && unreadMarker == 0
      modifies this`data, this`next, this`unreadMarker
      ensures next <= |data|
      ensures var rest := AfterFF(old(data[next..]));
              if rest == [] then val == 0 && Rest() == []
              else val == rest[0] && Rest() == rest[1..]
    {
      ghost var rest := AfterFF(data[next..]);
      ghost var dry := false;
      val := 0xFF;
      while val == 0xFF
        invariant next <= |data| && unreadMarker == 0
        invariant val == 0xFF ==> AfterFF(data[next..]) == rest
        invariant val == 0 ==> [0xFF] + Unstuff(data[next..]) == rest
        invariant val != 0xFF && val != 0 ==> rest == []
        invariant dry && val == 0xFF ==> next < |data| && data[|data| - 1] == 0xD9
        decreases !dry, |data| - next, val
      {
        ghost var before := data[next..];
        if next == |data| {
          UnstuffThenEoi([]);
          dry := true;
        }
        val := GetByte();
        assert data[next - 1..] == [val] + data[next..];
        assert AfterFF(data[next - 1..]) == rest;
      }
      if val == 0 {
        val := 0xFF;
      } else {
        unreadMarker := val;
        val := 0;
      }
    }

    /** Section D.2.6: shift until A is normalized, reading code bytes into C
        as its input bits run out.  The first call fills C with two bytes.
     */
    method Renorm()
      requires Valid()
      modifies this`c, this`a, this`ct, this`data, this`next, this`unreadMarker, this`offset
      ensures Valid() && 0 <= ct && a >= 0x8000
      ensures offset == RenormalizeOffset(old(offset))
    {
      while a < 0x8000
        invariant Valid()
        invariant RenormalizeOffset(offset) == RenormalizeOffset(old(offset))
        decreases if ct == -16 then 2 else if ct == -8 then 1 else 0, 0x10000 - a
      {
        Shift();
      }
    }

    /** One turn of the renormalization loop. */
    method Shift()
      requires Valid() && a < 0x8000
      modifies this`c, this`a, this`ct, this`data, this`next, this`unreadMarker, this`offset
      ensures Valid()
      ensures RenormalizeOffset(offset) == RenormalizeOffset(old(offset))
      ensures if old(ct) == -16 then ct == -8 else if old(ct) == -8 then a == 0x10000 && ct == 0
              else 0 <= ct && a == 2 * old(a)
    {
      hide Unstuff, Fraction;
      ghost var filling := ct < 0;
      ct := ct - 1;
      if ct < 0 {
        ghost var rest := Rest();
        var val := NextCodeByte();
        FractionStep(rest, val, Rest());
        ShlByteReal(2.0 * offset.pos);
        c := 256 * c + val;
        ct := ct + 8;
        if ct < 0 {
          ct := ct + 1;
          if ct == 0 {
            a := 0x8000;
          }
        }
      }
      a := 2 * a;
      if !filling {
        offset := Offset(2.0 * offset.pos, 2 * offset.width);
      }
    }

    /** Sections D.2.4 to D.2.6: decode one decision with bin `st`. */
    method Decode(st: nat) returns (val: bool)
      requires Valid() && st < stats.Length
      modifies this`c, this`a, this`ct, this`data, this`next, this`unreadMarker, this`offset, stats
      ensures Valid()
      ensures (val, State()) == DecodeOne(old(State()), st)
    {
      Renorm();
      var sv := stats[st];
      ghost var o := Decide(table, offset, sv);
      var qe := Qe(table, sv);
      var temp := a - qe;
      ShlDifference(offset.pos, temp, ct);
      a := temp;
      temp := Shl(temp, ct);
      val := Mps(sv);
      if c >= temp {
        c := c - temp;
        if a < qe {
          stats[st] := AfterMps(table, sv);
        } else {
          stats[st] := AfterLps(table, sv);
          val := !val;
        }
        a := qe;
      } else if a < 0x8000 {
        if a < qe {
          stats[st] := AfterLps(table, sv);
          val := !val;
        } else {
          stats[st] := AfterMps(table, sv);
        }
      }
      offset := o.offset;
      assert stats[..] == old(stats[..])[st := o.next];
    }
  }

  lemma FractionStep(rest: seq<byte>, val: byte, rest': seq<byte>)
    requires if rest == [] then val == 0 && rest' == [] else val == rest[0] && rest' == rest[1..]
    ensures 256.0 * Fraction(rest) == val as real + Fraction(rest')
  {
  }
}
