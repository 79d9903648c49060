/** The word-wide bit buffer of the sequential Huffman encoder (PUT_BITS,
    PUT_AND_FLUSH, FLUSH, PUT_CODE and flush_bits, jchuff.c).
 */
module HuffBitBuffer {
  import opened CodeBytes
  import opened Coefficients
  import opened CanonicalCode
  import opened HuffTokens
  import opened BitPacking
  import opened FlushTest

  const BIT_BUF_SIZE := 64

  class HuffBitBuffer {
    var putBuffer: nat   // valid bits right-justified; bits sent before may lie above
    var freeBits: int
    var output: seq<byte>

    ghost var sent: seq<bool>     // all bits put so far
    ghost var flushed: seq<byte>  // output without stuffed zeros

    ghost function Pending(): seq<bool>
      reads this
      requires 0 <= freeBits <= BIT_BUF_SIZE
    {
      BitString(putBuffer, BIT_BUF_SIZE - freeBits)
    }

    ghost predicate Valid()
      reads this
    {
      && 0 <= freeBits <= BIT_BUF_SIZE
      && sent == BitsOf(flushed) + Pending()
      && output == Stuff(flushed)
    }

    constructor ()
      ensures Valid() && sent == [] && output == []
    {
      putBuffer, freeBits, output, sent, flushed := 0, BIT_BUF_SIZE, [], [], [];
    }

    /** EMIT_BYTE: a zero byte after 0xFF. */
    method EmitByte(b: byte)
      requires output == Stuff(flushed)
      modifies `output, `flushed
      ensures output == Stuff(flushed) && flushed == old(flushed) + [b]
    {
      StuffSnoc(flushed, b);
      output := output + [b];
      if b == 0xFF {
        output := output + [0];
        assert old(output) + [b] + [0] == old(output) + [0xFF, 0x00];
      }
      flushed := flushed + [b];
    }

    /** FLUSH: all eight bytes, directly if none of them is 0xFF. */
    method Flush()
      requires output == Stuff(flushed)
      modifies `output, `flushed
      ensures output == Stuff(flushed) && flushed == old(flushed) + WordBytes(putBuffer, 8)
    {
      hide Stuff, WordBytes, SomeFF, ByteAt;
      SomeFFExact(putBuffer, 8);
      WordByBytes(putBuffer);
      if SomeFF(putBuffer, 8) {
        EmitByte(ByteAt(putBuffer, 7));
        EmitByte(ByteAt(putBuffer, 6));
        EmitByte(ByteAt(putBuffer, 5));
        EmitByte(ByteAt(putBuffer, 4));
        EmitByte(ByteAt(putBuffer, 3));
        EmitByte(ByteAt(putBuffer, 2));
        EmitByte(ByteAt(putBuffer, 1));
        EmitByte(ByteAt(putBuffer, 0));
      } else {
        StuffPlain(flushed, WordBytes(putBuffer, 8));
        output := output + [ByteAt(putBuffer, 7), ByteAt(putBuffer, 6), ByteAt(putBuffer, 5), ByteAt(putBuffer, 4),
                            ByteAt(putBuffer, 3), ByteAt(putBuffer, 2), ByteAt(putBuffer, 1), ByteAt(putBuffer, 0)];
        flushed := flushed + WordBytes(putBuffer, 8);
      }
    }

    /** PUT_AND_FLUSH: the leading bits of the code fill the word, the rest start
        the next one.
     */
    method PutAndFlush(code: nat, size: nat)
      requires -BIT_BUF_SIZE <= freeBits < 0 && 0 <= size + freeBits <= BIT_BUF_SIZE && code < Pow2(size)
      requires output == Stuff(flushed)
      requires sent == BitsOf(flushed) + BitString(putBuffer, BIT_BUF_SIZE - (size + freeBits)) + BitString(code, size)
      modifies `output, `flushed, `putBuffer, `freeBits
      ensures Valid()
    {
      hide Stuff, BitString, BitsOf, BitOr, Shl, Shr, LowPart, Pow2, WordBytes;
      ghost var before, pending := flushed, BitString(putBuffer, BIT_BUF_SIZE - (size + freeBits));
      FilledWord(putBuffer, size + freeBits, code, size);
      putBuffer := BitOr(LowPart(Shl(putBuffer, size + freeBits), BIT_BUF_SIZE), Shr(code, -freeBits));
      BitsOfWord(before, putBuffer);
      Flush();
      ghost var bits := BitString(code, size);
      assert (BitsOf(before) + pending) + bits
          == (BitsOf(before) + (pending + bits[..size + freeBits])) + bits[size + freeBits..];
      freeBits := freeBits + BIT_BUF_SIZE;
      putBuffer := code;
    }

    /** PUT_BITS. */
    method PutBits(code: nat, size: nat)
      requires Valid() && size <= 32 && code < Pow2(size)
      modifies this
      ensures Valid() && sent == old(sent) + BitString(code, size)
    {
      hide Stuff, BitString, BitsOf, BitOr, Shl, LowPart, Pow2;
      ghost var bits, pending := BitString(code, size), Pending();
      sent := sent + bits;
      freeBits := freeBits - size;
      if freeBits < 0 {
        PutAndFlush(code, size);
      } else {
        AppendedWord(putBuffer, freeBits + size, code, size);
        putBuffer := BitOr(LowPart(Shl(putBuffer, size), BIT_BUF_SIZE), code);
        assert (BitsOf(flushed) + pending) + bits == BitsOf(flushed) + (pending + bits);
      }
    }

    /** PUT_CODE: a Huffman code, then the `nbits` low bits of `temp`. */
    method PutCode(code: nat, size: nat, temp: nat, nbits: nat)
      requires Valid() && size <= 16 && nbits <= 16 && code < Pow2(size)
      modifies this
      ensures Valid() && sent == old(sent) + BitString(code, size) + BitString(temp, nbits)
    {
      hide Stuff, BitString, BitsOf, BitOr, Shl, LowPart, Pow2;
      CodeAndBits(code, size, temp, nbits);
      var joined := BitOr(Shl(code, nbits), LowPart(temp, nbits));
      PutBits(joined, nbits + size);
      assert old(sent) + (BitString(code, size) + BitString(temp, nbits))
                 == (old(sent) + BitString(code, size)) + BitString(temp, nbits);
    }

    /** flush_bits: whole bytes, then a partial one filled with ones; the buffer
        is then empty.
     */
    method FlushBits()
      requires Valid()
      modifies this
      ensures Valid() && sent == Padded(old(sent)) && output == Stuff(WholeBytes(sent))
    {
      hide Stuff, BitString, BitsOf, BitOr, Shl, Shr, LowPart, Pow2, WholeBytes, Padded;
      ghost var all, before, pending := sent, flushed, Pending();
      var putBits := BIT_BUF_SIZE - freeBits;
      while putBits >= 8
        invariant 0 <= putBits <= BIT_BUF_SIZE && output == Stuff(flushed)
        invariant flushed + WholeBytes(BitString(putBuffer, putBits)) == before + WholeBytes(pending)
        invariant LeftOver(BitString(putBuffer, putBits)) == LeftOver(pending)
        decreases putBits
      {
        NextByte(putBuffer, putBits);
        putBits := putBits - 8;
        ghost var done, rest := flushed, BitString(putBuffer, putBits);
        var temp := LowPart(Shr(putBuffer, putBits), 8);
        EmitByte(temp);
        assert done + ([temp] + WholeBytes(rest)) == (done + [temp]) + WholeBytes(rest);
      }
      ghost var left := BitString(putBuffer, putBits);
      FewBits(left);
      if putBits > 0 {
        PartialByte(putBuffer, putBits);
        var temp := BitOr(LowPart(Shl(putBuffer, 8 - putBits), 8), Shr(0xFF, putBits));
        EmitByte(temp);
      }
      FlushedAll(before, pending, left, flushed);
      PaddedWhole(all);
      sent := Padded(all);
      putBuffer, freeBits := 0, BIT_BUF_SIZE;
      EmptyPending(sent, flushed);
    }
  }

  /** Byte `i` of a word, counted from the lowest. */
  function ByteAt(x: nat, i: nat): byte
    decreases i
  {
    if i == 0 then x % 256 else ByteAt(x / 256, i - 1)
  }

  lemma {:induction false} WordByteAt(x: nat, n: nat, i: nat)
    requires i < n
    ensures WordBytes(x, n)[n - 1 - i] == ByteAt(x, i)
    decreases n
  {
    if i > 0 { WordByteAt(x / 256, n - 1, i - 1); }
  }

  lemma WordByBytes(x: nat)
    ensures WordBytes(x, 8) == [ByteAt(x, 7), ByteAt(x, 6), ByteAt(x, 5), ByteAt(x, 4),
                                ByteAt(x, 3), ByteAt(x, 2), ByteAt(x, 1), ByteAt(x, 0)]
  {
    hide WordBytes, ByteAt;
    forall i | 0 <= i < 8 ensures WordBytes(x, 8)[7 - i] == ByteAt(x, i) { WordByteAt(x, 8, i); }
    assert WordBytes(x, 8)[7 - 0] == ByteAt(x, 0) && WordBytes(x, 8)[7 - 1] == ByteAt(x, 1);
    assert WordBytes(x, 8)[7 - 2] == ByteAt(x, 2) && WordBytes(x, 8)[7 - 3] == ByteAt(x, 3);
    assert WordBytes(x, 8)[7 - 4] == ByteAt(x, 4) && WordBytes(x, 8)[7 - 5] == ByteAt(x, 5);
    assert WordBytes(x, 8)[7 - 6] == ByteAt(x, 6) && WordBytes(x, 8)[7 - 7] == ByteAt(x, 7);
  }

  /** Bytes that need no stuffing. */
  lemma {:induction false} StuffPlain(ds: seq<byte>, w: seq<byte>)
    requires 0xFF !in w
    ensures Stuff(ds + w) == Stuff(ds) + w
    decreases |w|
  {
    if w == [] {
      assert ds + [] == ds && Stuff(ds) + [] == Stuff(ds);
    } else {
      var rest, b := w[..|w| - 1], w[|w| - 1];
      StuffPlain(ds, rest);
      StuffSnoc(ds + rest, b);
      assert ds + w == (ds + rest) + [b] && w == rest + [b];
      assert (Stuff(ds) + rest) + [b] == Stuff(ds) + w;
    }
  }

  lemma {:induction false} BitsOfConcat(a: seq<byte>, b: seq<byte>)
    ensures BitsOf(a + b) == BitsOf(a) + BitsOf(b)
    decreases |a|
  {
    hide BitString;
    if a == [] {
      assert a + b == b;
    } else {
      assert (a + b)[0] == a[0] && (a + b)[1..] == a[1..] + b;
      BitsOfConcat(a[1..], b);
      assert BitString(a[0] as nat, 8) + (BitsOf(a[1..]) + BitsOf(b))
                 == (BitString(a[0] as nat, 8) + BitsOf(a[1..])) + BitsOf(b);
    }
  }

  lemma {:induction false} BitsOfWordBytes(x: nat, n: nat)
    ensures BitsOf(WordBytes(x, n)) == BitString(x, 8 * n)
    decreases n
  {
    hide BitString;
    if n == 0 {
      NoBitString(x);
    } else {
      BitsOfWordBytes(x / 256, n - 1);
      BitsOfConcat(WordBytes(x / 256, n - 1), [x % 256]);
      assert [x % 256][1..] == [] && BitsOf([x % 256]) == BitString(x % 256, 8) + [] == BitString(x % 256, 8);
      Times256(x / 256);
      BitStringAppend(x / 256, 8 * (n - 1), x % 256, 8);
    }
  }

  lemma NoBitString(x: nat)
    ensures BitString(x, 0) == []
  {
  }

  lemma BitsOfWord(before: seq<byte>, x: nat)
    ensures BitsOf(before + WordBytes(x, 8)) == BitsOf(before) + BitString(x, 64)
  {
    BitsOfConcat(before, WordBytes(x, 8));
    BitsOfWordBytes(x, 8);
  }

  /** The word that PUT_AND_FLUSH writes. */
  lemma FilledWord(held: nat, free: nat, code: nat, size: nat)
    requires free <= BIT_BUF_SIZE && free <= size && code < Pow2(size)
    ensures var word := BitOr(LowPart(Shl(held, free), BIT_BUF_SIZE), Shr(code, size - free));
            BitString(word, BIT_BUF_SIZE) == BitString(held, BIT_BUF_SIZE - free) + BitString(code, size)[..free]
    ensures BitString(code, size)[free..] == BitString(code, size - free)
  {
    hide BitString, BitOr, Shl, Shr, LowPart, Pow2;
    var kept, lead := LowPart(held, BIT_BUF_SIZE - free), Shr(code, size - free);
    LowPartOfShl(held, free, BIT_BUF_SIZE);
    ShrBelow(code, free, size - free);
    OrDisjoint(kept, lead, free);
    BitStringAppend(kept, BIT_BUF_SIZE - free, lead, free);
    BitStringLow(held, BIT_BUF_SIZE - free, BIT_BUF_SIZE - free);
    BitStringStart(code, size, free);
    BitStringEnd(code, size, free);
  }

  /** The word after PUT_BITS without overflow. */
  lemma AppendedWord(held: nat, free: nat, code: nat, size: nat)
    requires size <= free <= BIT_BUF_SIZE && code < Pow2(size)
    ensures BitString(BitOr(LowPart(Shl(held, size), BIT_BUF_SIZE), code), BIT_BUF_SIZE - (free - size))
         == BitString(held, BIT_BUF_SIZE - free) + BitString(code, size)
  {
    hide BitString, BitOr, Shl, LowPart, Pow2;
    var kept := LowPart(held, BIT_BUF_SIZE - size);
    LowPartOfShl(held, size, BIT_BUF_SIZE);
    OrDisjoint(kept, code, size);
    BitStringAppend(kept, BIT_BUF_SIZE - free, code, size);
    BitStringLow(held, BIT_BUF_SIZE - free, BIT_BUF_SIZE - size);
  }

  lemma CodeAndBits(code: nat, size: nat, temp: nat, nbits: nat)
    requires code < Pow2(size)
    ensures var joined := BitOr(Shl(code, nbits), LowPart(temp, nbits));
            joined < Pow2(nbits + size) && BitString(joined, nbits + size) == BitString(code, size)
                  + BitString(temp, nbits)
  {
    hide BitString, BitOr, LowPart;
    var low := LowPart(temp, nbits);
    OrDisjoint(code, low, nbits);
    BitStringAppend(code, size, low, nbits);
    BitStringLow(temp, nbits, nbits);
    ShlSumBelow(code, low, size, nbits);
  }

  lemma {:induction false} ShlSumBelow(v: nat, low: nat, m: nat, k: nat)
    requires v < Pow2(m) && low < Pow2(k)
    ensures Shl(v, k) + low < Pow2(k + m)
    decreases k
  {
    if k > 0 { ShlSumBelow(v, low / 2, m, k - 1); }
  }

  // ----- Flushing the last bits ------------------------------------------------------------------

  lemma NextByte(held: nat, n: nat)
    requires n >= 8
    ensures LowPart(Shr(held, n - 8), 8) < 256
    ensures WholeBytes(BitString(held, n)) == [LowPart(Shr(held, n - 8), 8)] + WholeBytes(BitString(held, n - 8))
    ensures LeftOver(BitString(held, n)) == LeftOver(BitString(held, n - 8))
  {
    hide BitString, Shr, LowPart, WholeBytes;
    TopByte(held, n);
    FirstByte(BitString(held, n));
    LowByte(Shr(held, n - 8));
  }

  lemma LowByte(x: nat)
    ensures LowPart(x, 8) < 256
  {
    assert Pow2(8) == 256;
  }

  lemma FewBits(left: seq<bool>)
    requires |left| < 8
    ensures WholeBytes(left) == [] && LeftOver(left) == left
  {
  }

  /** The partial byte, its low bits ones. */
  lemma PartialByte(held: nat, n: nat)
    requires 0 < n < 8
    ensures BitOr(LowPart(Shl(held, 8 - n), 8), Shr(0xFF, n)) < 256
    ensures var left := BitString(held, n);
            WholeBytes(left + Ones(8 - n)) == [BitOr(LowPart(Shl(held, 8 - n), 8), Shr(0xFF, n))]
  {
    hide BitString, BitOr, Shl, LowPart, Ones, Pow2, ByteOf, Shr;
    var kept, ones, k := LowPart(held, n), Shr(0xFF, n), 8 - n;
    LowPartOfShl(held, k, 8);
    AllOnes(n);
    OrDisjoint(kept, ones, k);
    ShlSumBelow(kept, ones, n, k);
    BitStringAppend(kept, n, ones, k);
    BitStringLow(held, n, n);
    var word := Shl(kept, k) + ones;
    ByteBack(word);
  }

  lemma ByteBack(word: nat)
    requires word < Pow2(8)
    ensures word < 256 && WholeBytes(BitString(word, 8)) == [word]
  {
    hide BitString, ByteOf, LowPart, Shr;
    assert Pow2(8) == 256;
    TopByte(word, 8);
    LowPartWhole(word, 8);
    ShrZero(word);
    var s := BitString(word, 8);
    assert s[..8] == s && s[8..] == [];
  }

  lemma ShrZero(x: nat)
    ensures Shr(x, 0) == x
  {
  }

  lemma {:induction false} AllOnes(n: nat)
    requires n <= 8
    ensures Shr(0xFF, n) < Pow2(8 - n) && BitString(Shr(0xFF, n), 8 - n) == Ones(8 - n)
    decreases n
  {
    ShrBelow(0xFF, 8 - n, n);
    assert Pow2(8) == 256;
    OnesString(8 - n);
    FFIsOnes(n);
  }

  lemma {:induction false} OnesString(k: nat)
    ensures BitString(Pow2(k) - 1, k) == Ones(k)
    decreases k
  {
    if k > 0 {
      assert (Pow2(k) - 1) / 2 == Pow2(k - 1) - 1 && (Pow2(k) - 1) % 2 == 1;
      OnesString(k - 1);
    }
  }

  lemma {:induction false} FFIsOnes(n: nat)
    requires n <= 8
    ensures Shr(0xFF, n) == Pow2(8 - n) - 1
    decreases n
  {
    if n == 0 {
      assert Pow2(8) == 256;
    } else {
      FFIsOnes(n - 1);
      ShrSnoc(0xFF, n - 1);
    }
  }

  /** What has been written is the padded bit string. */
  lemma FlushedAll(before: seq<byte>, pending: seq<bool>, left: seq<bool>, flushed: seq<byte>)
    requires |left| < 8 && LeftOver(pending) == left
    requires flushed == before + WholeBytes(pending) + if left == [] then [] else WholeBytes(left + Ones(8 - |left|))
    ensures flushed == WholeBytes(Padded(BitsOf(before) + pending))
  {
    hide WholeBytes, Ones, LeftOver, BitsOf;
    var all := BitsOf(before) + pending;
    BitsOfIsWhole(before);
    Append(BitsOf(before), pending);
    assert [] + pending == pending;
    if left != [] {
      Append(all, Ones(8 - |left|));
    }
  }

  lemma {:induction false} BitsOfIsWhole(bytes: seq<byte>)
    ensures WholeBytes(BitsOf(bytes)) == bytes && LeftOver(BitsOf(bytes)) == []
    decreases |bytes|
  {
    hide BitString;
    if bytes != [] {
      var b := bytes[0];
      assert Pow2(8) == 256;
      ByteBack(b as nat);
      BitsOfIsWhole(bytes[1..]);
      Append(BitString(b as nat, 8), BitsOf(bytes[1..]));
      WholeByteLeft(BitString(b as nat, 8));
      assert [] + BitsOf(bytes[1..]) == BitsOf(bytes[1..]);
    }
  }

  lemma WholeByteLeft(s: seq<bool>)
    requires |s| == 8
    ensures LeftOver(s) == []
  {
  }

  lemma EmptyPending(sent: seq<bool>, flushed: seq<byte>)
    requires flushed == WholeBytes(sent) && LeftOver(sent) == []
    ensures sent == BitsOf(flushed) + BitString(0, BIT_BUF_SIZE - BIT_BUF_SIZE)
  {
    BitsOfWholeBytes(sent);
    assert BitString(0, 0) == [];
  }
}
