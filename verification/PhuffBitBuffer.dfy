/** The 24-bit bit buffer of the progressive Huffman encoder (emit_bits and
    flush_bits, jcphuff.c).
 */
module PhuffBitBuffer {
  import opened CodeBytes
  import opened Coefficients
  import opened CanonicalCode
  import opened HuffTokens
  import opened BitPacking

  const SIZE_T_BITS := 64

  class PhuffBitBuffer {
    var putBuffer: nat   // valid bits left-justified in the low 24; bits sent before lie above
    var putBits: nat     // number of valid bits
    var output: seq<byte>

    ghost var sent: seq<bool>  // all bits passed to EmitBits
    ghost var held: nat        // the buffer right-justified, with what lies above

    ghost predicate Holds(bits: seq<bool>)
      reads this
    {
      && putBits <= 24
      && putBuffer == Shl(held, 24 - putBits)
      && BitString(held, putBits) == bits
    }

    ghost predicate Valid()
      reads this
    {
      putBits <= 7 && Holds(LeftOver(sent)) && output == Stuff(WholeBytes(sent))
    }

    constructor ()
      ensures Valid() && sent == [] && output == []
    {
      putBuffer, putBits, output, sent, held := 0, 0, [], [], 0;
      new;
      ZeroShifted(24);
    }

    /** One byte, and a zero byte after 0xFF. */
    method EmitByte(c: byte, ghost bytes: seq<byte>)
      requires output == Stuff(bytes)
      modifies `output
      ensures output == Stuff(bytes + [c])
    {
      StuffSnoc(bytes, c);
      output := output + [c];
      if c == 0xFF {
        output := output + [0];
        assert old(output) + [c] + [0] == old(output) + [0xFF, 0x00];
      }
    }

    /** Complete bytes leave the buffer. */
    method EmitWholeBytes(ghost bits: seq<bool>, ghost bytes: seq<byte>)
      requires Holds(bits) && output == Stuff(bytes)
      modifies `output, `putBuffer, `putBits, `held
      ensures Holds(LeftOver(bits)) && putBits <= 7
      ensures output == Stuff(bytes + WholeBytes(bits))
    {
      hide Shl, Shr, BitString, LowPart, ByteOf, Stuff;
      ghost var rest, done := bits, bytes;
      while putBits >= 8
        invariant Holds(rest) && output == Stuff(done)
        invariant LeftOver(rest) == LeftOver(bits) && done + WholeBytes(rest) == bytes + WholeBytes(bits)
        decreases putBits
      {
        TopOfBuffer(held, putBits);
        FirstByte(rest);
        var c: byte := LowPart(Shr(putBuffer, 16), 8);
        EmitByte(c, done);
        assert done + ([c] + WholeBytes(rest[8..])) == (done + [c]) + WholeBytes(rest[8..]);
        rest, done := rest[8..], done + [c];
        ShiftBuffer(held, putBits);
        putBuffer := LowPart(Shl(putBuffer, 8), SIZE_T_BITS);
        putBits := putBits - 8;
        held := LowPart(held, 40 + putBits);
      }
      assert WholeBytes(rest) == [] && done + [] == done;
    }

    /** Append the low `size` bits of `code`; a size of 0 is the error exit of an
        unusable table entry.
     */
    method EmitBits(code: nat, size: nat) returns (ok: bool)
      requires Valid() && size <= 16
      modifies `output, `putBuffer, `putBits, `held, `sent
      ensures Valid() && ok == (size != 0)
      ensures sent == if ok then old(sent) + BitString(code, size) else old(sent)
    {
      hide Shl, BitOr, BitString, LowPart, WholeBytes, Stuff;
      ok := size != 0;
      if ok {
        ghost var bits, left := BitString(code, size), LeftOver(sent);
        var incoming := LowPart(code, size);
        MergedBuffer(held, putBits, code, size);
        putBits := putBits + size;
        incoming := Shl(incoming, 24 - putBits);
        putBuffer := BitOr(putBuffer, incoming);
        held := Shl(held, size) + LowPart(code, size);
        Append(sent, bits);
        EmitWholeBytes(left + bits, WholeBytes(sent));
        sent := sent + bits;
      }
    }

    /** Fill any partial byte with ones, and empty the buffer. */
    method FlushBits()
      requires Valid()
      modifies `output, `putBuffer, `putBits, `held, `sent
      ensures Valid() && sent == Padded(old(sent)) && LeftOver(sent) == []
    {
      hide BitString, WholeBytes, LeftOver, Padded, Stuff, Ones, Pow2;
      ghost var before := sent;
      SevenOnes();
      var ok := EmitBits(0x7F, 7);
      PaddedBySeven(before);
      PaddedWhole(before);
      putBuffer, putBits, held, sent := 0, 0, 0, Padded(before);
      ZeroShifted(24);
    }
  }

  lemma {:induction false} ZeroShifted(k: nat)
    ensures Shl(0, k) == 0
    decreases k
  {
    if k > 0 { ZeroShifted(k - 1); }
  }

  /** The new bits go below the valid ones, where the buffer is zero. */
  lemma MergedBuffer(held: nat, n: nat, code: nat, size: nat)
    requires n + size <= 24
    ensures BitOr(Shl(held, 24 - n), Shl(LowPart(code, size), 24 - (n + size)))
            == Shl(Shl(held, size) + LowPart(code, size), 24 - (n + size))
    ensures BitString(Shl(held, size) + LowPart(code, size), n + size) == BitString(held, n) + BitString(code, size)
  {
    hide Shl, BitOr, BitString, Pow2, LowPart;
    var k, v := 24 - (n + size), LowPart(code, size);
    ShlTwice(held, size, k);
    ShlBelow(v, size, k);
    OrDisjoint(held, Shl(v, k), 24 - n);
    ShlAdd(Shl(held, size), v, k);
    BitStringAppend(held, n, v, size);
    BitStringLow(code, size, size);
  }

  lemma {:induction false} ShlBelow(v: nat, m: nat, k: nat)
    requires v < Pow2(m)
    ensures Shl(v, k) < Pow2(m + k)
    decreases k
  {
    if k > 0 { ShlBelow(v, m, k - 1); }
  }

  /** The byte at bits 16 to 23 is the first eight valid bits. */
  lemma TopOfBuffer(held: nat, n: nat)
    requires 8 <= n <= 24
    ensures LowPart(Shr(Shl(held, 24 - n), 16), 8) < 256
    ensures LowPart(Shr(Shl(held, 24 - n), 16), 8) == ByteOf(BitString(held, n)[..8]) as nat
  {
    hide Shl, Shr, BitString, LowPart;
    ShrOfShl(held, 24 - n, 16);
    TopByte(held, n);
  }

  /** Eight bits further; a word of 64 bits loses what it cannot hold. */
  lemma ShiftBuffer(held: nat, n: nat)
    requires 8 <= n <= 24
    ensures LowPart(Shl(Shl(held, 24 - n), 8), SIZE_T_BITS) == Shl(LowPart(held, 40 + (n - 8)), 24 - (n - 8))
    ensures BitString(LowPart(held, 40 + (n - 8)), n - 8) == BitString(held, n)[8..]
  {
    hide Shl, BitString, LowPart;
    ShlTwice(held, 24 - n, 8);
    LowPartOfShl(held, 32 - n, SIZE_T_BITS);
    BitStringLow(held, n - 8, 32 + n);
    TopByte(held, n);
  }

  lemma SevenOnes()
    ensures BitString(0x7F, 7) == Ones(7)
  {
    assert BitString(0xF, 4) == Ones(4);
    assert BitString(0x1F, 5) == Ones(5);
  }

  lemma {:induction false} OnesConcat(m: nat, n: nat)
    ensures Ones(m) + Ones(n) == Ones(m + n)
    decreases n
  {
    if n == 0 {
      assert Ones(m) + [] == Ones(m);
    } else {
      OnesConcat(m, n - 1);
      assert Ones(m) + (Ones(n - 1) + [true]) == (Ones(m) + Ones(n - 1)) + [true];
    }
  }

  /** Seven ones complete a partial byte and nothing more. */
  lemma PaddedBySeven(bits: seq<bool>)
    ensures WholeBytes(bits + Ones(7)) == WholeBytes(Padded(bits))
  {
    var left := LeftOver(bits);
    Append(bits, Ones(7));
    if left == [] {
      assert WholeBytes(left + Ones(7)) == [];
    } else {
      var n := 8 - |left|;
      Append(bits, Ones(n));
      OnesConcat(n, 7 - n);
      assert left + Ones(7) == (left + Ones(n)) + Ones(7 - n);
      SameFirstByte(left + Ones(n), Ones(7 - n));
    }
  }

  lemma SameFirstByte(a: seq<bool>, b: seq<bool>)
    requires |a| == 8 && |b| < 8
    ensures WholeBytes(a + b) == WholeBytes(a)
  {
    assert (a + b)[..8] == a == a[..8] && (a + b)[8..] == b;
  }
}
