/** The bytes jcarith.c writes, read back by jdarith.c: every decision returns,
    every statistics bin agrees, and no shorter code would have done.
 */
module ArithRoundTrip {
  import opened ProbabilityTable
  import opened IdealCoder
  import opened CodeBytes
  import Enc = ArithEncoder
  import Dec = ArithDecoder

  // ----- Round trip -----------------------------------------------------------

  ghost function FirstDecoder(t: Table, stats: seq<Stat>, data: seq<byte>): Decoder {
    Decoder(t, Offset(65536.0 * Fraction(Unstuff(data)), 0x10000), stats)
  }

  /** Before any decision every code is possible. */
  lemma EveryCodeInside(code: seq<byte>)
    ensures Inside(Fraction(code), WHOLE) && WHOLE.low == 0 && Scaled(1.0, WHOLE.shifts) == WHOLE.width as real
  {
    assert 0.0 <= 65536.0 * Fraction(code) < 65536.0;
  }

  /** Decoding the stuffed code returns every decision, and after each of them
      both sides hold the same statistics.
   */
  lemma {:induction false} CodeRoundTrips(t: Table, stats: seq<Stat>, ds: seq<Decision>, code: seq<byte>,
                                          tail: seq<byte>)
    requires Codable(ds, |stats|) && Unstuff(tail) == []
    requires Inside(Fraction(code), EncodeAll(Encoder(t, WHOLE, stats), ds).iv)
    ensures var d := FirstDecoder(t, stats, Stuff(code) + tail);
            && Yields(d, ds)
            && forall k :: 0 <= k <= |ds| ==>
                 DecodeAll(d, ds[..k]).stats == EncodeAll(Encoder(t, WHOLE, stats), ds[..k]).stats
  {
    var e := Encoder(t, WHOLE, stats);
    var d := FirstDecoder(t, stats, Stuff(code) + tail);
    UnstuffStuffed(code, tail);
    assert Unstuff(Stuff(code) + tail) == code;
    assert InStep(d, e, Fraction(code));
    DecodingInvertsEncoding(d, e, ds, Fraction(code));
    forall k | 0 <= k <= |ds|
      ensures DecodeAll(d, ds[..k]).stats == EncodeAll(e, ds[..k]).stats
    {
      assert ds == ds[..k] + ds[k..];
      EncodeAllConcat(e, ds[..k], ds[k..]);
      EncodeAllNests(EncodeAll(e, ds[..k]), ds[k..], Fraction(code));
      DecodingInvertsEncoding(d, e, ds[..k], Fraction(code));
    }
  }

  /** arith_encode once per decision. */
  method WriteDecisions(enc: Enc.ArithEncoder, ds: seq<Decision>)
    requires enc.Valid() && Codable(ds, enc.stats.Length)
    modifies enc, enc.stats
    ensures enc.Valid() && |old(enc.State()).stats| == enc.stats.Length
    ensures enc.State() == EncodeAll(old(enc.State()), ds)
  {
    ghost var start := enc.State();
    for i := 0 to |ds|
      invariant enc.Valid()
      invariant Codable(ds[..i], enc.stats.Length) && |start.stats| == enc.stats.Length
      invariant enc.State() == EncodeAll(start, ds[..i])
    {
      EncodeAllSnoc(start, ds, i);
      enc.Encode(ds[i].bin, ds[i].val);
    }
    assert ds[..|ds|] == ds;
  }

  lemma EncodeAllSnoc(e: Encoder, ds: seq<Decision>, i: nat)
    requires e.iv.Normalized() && Codable(ds, |e.stats|) && i < |ds|
    ensures Codable(ds[..i], |e.stats|) && Codable(ds[..i + 1], |e.stats|)
    ensures EncodeAll(e, ds[..i + 1]) == EncodeOne(EncodeAll(e, ds[..i]), ds[i])
  {
    assert ds[..i + 1] == ds[..i] + [ds[i]];
    EncodeAllConcat(e, ds[..i], [ds[i]]);
    EncodeAllOne(EncodeAll(e, ds[..i]), ds[i]);
  }

  /** arith_encode once per decision, then finish_pass. */
  method WriteCode(ds: seq<Decision>, stats: array<Stat>) returns (data: seq<byte>, ghost code: seq<byte>)
    requires Codable(ds, stats.Length)
    modifies stats
    ensures data == Stuff(code) && Enc.NoTrailingZero(code)
    ensures var e := EncodeAll(Encoder(JPEG_ARITAB, WHOLE, old(stats[..])), ds);
            && stats[..] == e.stats && Inside(Fraction(code), e.iv)
            && forall other :: Inside(Fraction(other), e.iv) ==> |code| <= |other|
  {
    var enc := new Enc.ArithEncoder(stats);
    WriteDecisions(enc, ds);
    ghost var picked := enc.Finish();
    data, code := enc.output, enc.emitted;
    forall other | Inside(Fraction(other), enc.iv) ensures |code| <= |other| {
      ShortestCode(enc.iv, picked, code, other);
    }
  }

  lemma EncodeAllOne(e: Encoder, d: Decision)
    requires e.iv.Normalized() && d.bin < |e.stats|
    ensures EncodeAll(e, [d]) == EncodeOne(e, d)
  {
    assert [d][1..] == [];
    assert EncodeAll(EncodeOne(e, d), []) == EncodeOne(e, d);
  }

  /** Reading `ds` from `d` succeeds and leaves the statistics `after`. */
  ghost predicate ReadAs(d: Decoder, ds: seq<Decision>, after: seq<Stat>) {
    1 <= d.offset.width <= 0x10000 && Codable(ds, |d.stats|) && Yields(d, ds) && after == DecodeAll(d, ds).stats
  }

  /** arith_decode once per bin asked for. */
  method ReadDecisions(dec: Dec.ArithDecoder, bins: seq<nat>) returns (vals: seq<bool>, ghost ds: seq<Decision>)
    requires dec.Valid() && forall i :: 0 <= i < |bins| ==> bins[i] < dec.stats.Length
    modifies dec, dec.stats
    ensures |vals| == |ds| == |bins|
    ensures forall i :: 0 <= i < |bins| ==> ds[i] == Decision(bins[i], vals[i])
    ensures ReadAs(old(dec.State()), ds, dec.stats[..]) == true
  {
    ghost var start := dec.State();
    vals, ds := [], [];
    for i := 0 to |bins|
      invariant dec.Valid()
      invariant |start.stats| == dec.stats.Length
      invariant |vals| == |ds| == i
      invariant forall j :: 0 <= j < i ==> ds[j] == Decision(bins[j], vals[j])
      invariant Codable(ds, dec.stats.Length) && Yields(start, ds)
      invariant dec.State() == DecodeAll(start, ds)
    {
      var val := dec.Decode(bins[i]);
      DecodeAllSnoc(start, ds, Decision(bins[i], val));
      vals, ds := vals + [val], ds + [Decision(bins[i], val)];
    }
  }

  method ReadCode(data: seq<byte>, bins: seq<nat>, stats: array<Stat>)
      returns (vals: seq<bool>, ghost ds: seq<Decision>)
    requires forall i :: 0 <= i < |bins| ==> bins[i] < stats.Length
    modifies stats
    ensures |vals| == |ds| == |bins|
    ensures forall i :: 0 <= i < |bins| ==> ds[i] == Decision(bins[i], vals[i])
    ensures ReadAs(FirstDecoder(JPEG_ARITAB, old(stats[..]), data), ds, stats[..]) == true
  {
    var dec := new Dec.ArithDecoder(stats, data);
    vals, ds := ReadDecisions(dec, bins);
  }

  lemma {:induction false} DecodeAllSnoc(d: Decoder, ds: seq<Decision>, last: Decision)
    requires 1 <= d.offset.width <= 0x10000 && Codable(ds, |d.stats|) && last.bin < |d.stats|
    requires Yields(d, ds) && DecodeOne(DecodeAll(d, ds), last.bin).0 == last.val
    ensures Codable(ds + [last], |d.stats|) && Yields(d, ds + [last])
    ensures DecodeAll(d, ds + [last]) == DecodeOne(DecodeAll(d, ds), last.bin).1
    decreases |ds|
  {
    if ds == [] {
      assert [] + [last] == [last] && [last][1..] == [];
    } else {
      assert (ds + [last])[0] == ds[0] && (ds + [last])[1..] == ds[1..] + [last];
      DecodeAllSnoc(DecodeOne(d, ds[0].bin).1, ds[1..], last);
    }
  }

  /** Two runs that are asked for the same bins of the same code agree. */
  lemma {:induction false} YieldsUnique(d: Decoder, xs: seq<Decision>, ys: seq<Decision>)
    requires 1 <= d.offset.width <= 0x10000 && Codable(xs, |d.stats|) && Codable(ys, |d.stats|)
    requires Yields(d, xs) && Yields(d, ys)
    requires |xs| == |ys| && forall i :: 0 <= i < |xs| ==> xs[i].bin == ys[i].bin
    ensures xs == ys
    decreases |xs|
  {
    if xs != [] {
      YieldsUnique(DecodeOne(d, xs[0].bin).1, xs[1..], ys[1..]);
      assert xs == [xs[0]] + xs[1..] && ys == [ys[0]] + ys[1..];
    }
  }

  /** One scan's worth of decisions written, followed by a marker, and read. */
  method RoundTrip(ds: seq<Decision>, encStats: array<Stat>, decStats: array<Stat>, marker: byte, rest: seq<byte>)
      returns (vals: seq<bool>)
    requires encStats != decStats && encStats[..] == decStats[..]
    requires Codable(ds, encStats.Length) && marker != 0 && marker != 0xFF
    modifies encStats, decStats
    ensures |vals| == |ds| && forall i :: 0 <= i < |ds| ==> vals[i] == ds[i].val
    ensures encStats[..] == decStats[..]
  {
    ghost var init := encStats[..];
    var data, code := WriteCode(ds, encStats);
    ghost var written := encStats[..];
    var tail := [0xFF, marker] + rest;
    MarkerEndsCode(0, marker, rest);
    assert tail == Repeat(0xFF, 1) + [marker] + rest;
    CodeRoundTrips(JPEG_ARITAB, init, ds, code, tail);
    var bins := seq(|ds|, i requires 0 <= i < |ds| => ds[i].bin);
    ghost var read;
    vals, read := ReadCode(data + tail, bins, decStats);
    SameDecisions(FirstDecoder(JPEG_ARITAB, init, data + tail), ds, read);
  }

  lemma SameDecisions(d: Decoder, ds: seq<Decision>, read: seq<Decision>)
    requires 1 <= d.offset.width <= 0x10000 && Codable(ds, |d.stats|) && Codable(read, |d.stats|)
    requires Yields(d, ds) && Yields(d, read)
    requires |ds| == |read| && forall i :: 0 <= i < |ds| ==> ds[i].bin == read[i].bin
    ensures ds == read && ds[..|ds|] == ds
  {
    YieldsUnique(d, ds, read);
  }

  // ----- Shortest code --------------------------------------------------------

  lemma {:induction false} ScaledIsShl(x: real, n: nat)
    ensures Scaled(x, n) == ShlReal(x, 16 + n)
    decreases n
  {
    if n == 0 {
      ShlRealAdd(x, 8, 8);
      Shl8(x);
      Shl8(256.0 * x);
    } else {
      ScaledIsShl(x, n - 1);
      ShlRealAdd(x, 15 + n, 1);
      assert ShlReal(ShlReal(x, 15 + n), 1) == 2.0 * ShlReal(x, 15 + n);
    }
  }

  lemma {:induction false} ShlRealAdd(x: real, j: nat, k: nat)
    ensures ShlReal(x, j + k) == ShlReal(ShlReal(x, j), k)
    decreases j
  {
    if j > 0 { ShlRealAdd(2.0 * x, j - 1, k); }
  }

  lemma Shl8(x: real)
    ensures ShlReal(x, 8) == 256.0 * x
  {
    assert ShlReal(x, 8) == ShlReal(4.0 * x, 6) == ShlReal(16.0 * x, 4) == ShlReal(64.0 * x, 2) == 256.0 * x;
  }

  lemma {:induction false} ShlRealOfNat(n: nat, k: nat)
    ensures ShlReal(n as real, k) == Shl(n, k) as real
    decreases k
  {
    if k > 0 {
      ShlRealOfNat(2 * n, k - 1);
      ShlDouble(n, k - 1);
    }
  }

  lemma {:induction false} ShlRealInjective(x: real, y: real, k: nat)
    requires ShlReal(x, k) == ShlReal(y, k)
    ensures x == y
    decreases k
  {
    if k > 0 { ShlRealInjective(2.0 * x, 2.0 * y, k - 1); }
  }

  /** A byte string is an integer once shifted left by its length. */
  lemma {:induction false} FractionShlIsNumber(ds: seq<byte>)
    ensures ShlReal(Fraction(ds), 8 * |ds|) == Number(ds) as real
    decreases |ds|
  {
    if |ds| < 2 {
      FractionShlOfShort(ds);
    } else {
      FractionIsNumber(ds);
      ScaledIsShl(Fraction(ds), 8 * (|ds| - 2));
    }
  }

  lemma FractionShlOfShort(ds: seq<byte>)
    requires |ds| < 2
    ensures ShlReal(Fraction(ds), 8 * |ds|) == Number(ds) as real
  {
    if |ds| == 1 {
      Shl8(Fraction(ds));
      assert ds[1..] == [] && ds[..0] == [];
    }
  }

  /** Zero bytes appended do not change the fraction, so a string is an integer
      at every longer length too.
   */
  lemma FractionShlPadded(ds: seq<byte>, len: nat) returns (n: nat)
    requires |ds| <= len
    ensures ShlReal(Fraction(ds), 8 * len) == n as real
  {
    var padded := ds + Repeat(0, len - |ds|);
    FractionTrailingZeros(ds, len - |ds|);
    FractionShlIsNumber(padded);
    n := Number(padded);
  }

  lemma ShlMultiple(n: nat, k: nat)
    requires k >= 16
    ensures Shl(n, k) % 0x10000 == 0
  {
    hide Shl;
    Enc.ShlSplit(n, k - 16, 16);
    Enc.ShlLiterals(0);
  }

  lemma {:induction false} ShlShl(n: nat, j: nat, k: nat)
    ensures Shl(Shl(n, j), k) == Shl(n, j + k)
    decreases k
  {
    if k > 0 { ShlShl(n, j, k - 1); }
  }

  lemma {:induction false} ShlDividing(x: real, code: nat, k: nat) returns (n: nat)
    requires k <= 15 && ShlReal(x, k) == code as real && code % 0x8000 == 0
    ensures x == n as real
  {
    n := Shl(code / 0x8000, 15 - k);
    ShlShl(code / 0x8000, 15 - k, k);
    ShlIsProduct(code / 0x8000, 15);
    Enc.ShlLiterals(0);
    assert Pow2(14) == 0x4000 && Pow2(15) == 0x8000;
    ShlRealOfNat(n, k);
    ShlRealInjective(x, n as real, k);
  }

  /** No byte string inside the interval is shorter than the one written. */
  lemma ShortestCode(iv: Interval, picked: nat, code: seq<byte>, other: seq<byte>)
    requires iv.Normalized() && Enc.RoundestIn(picked, iv) && Enc.NoTrailingZero(code)
    requires Scaled(Fraction(code), iv.shifts) == picked as real
    requires Inside(Fraction(other), iv)
    ensures |code| <= |other|
  {
    hide Shl, ShlReal, Pow2, Fraction, Scaled, Number;
    if |other| < |code| {
      var len := |code| - 1;
      ScaledIsShl(Fraction(code), iv.shifts);
      ScaledIsShl(Fraction(other), iv.shifts);
      var x := ShlReal(Fraction(code), 8 * len);
      var m := FractionShlPadded(other, len);
      if 16 + iv.shifts >= 8 * len {
        var k := 16 + iv.shifts - 8 * len;
        ShlRealAdd(Fraction(code), 8 * len, k);
        ShlRealAdd(Fraction(other), 8 * len, k);
        if k >= 16 {
          ShlRealOfNat(m, k);
          ShlMultiple(m, k);
          assert Shl(m, k) == picked;
          ShlRealInjective(x, m as real, k);
          LastByteNonzero(code, m);
        } else {
          var n := ShlDividing(x, picked, k);
          LastByteNonzero(code, n);
        }
      } else {
        var k := 8 * len - (16 + iv.shifts);
        ShlRealAdd(Fraction(code), 16 + iv.shifts, k);
        ShlRealOfNat(picked, k);
        LastByteNonzero(code, Shl(picked, k));
      }
    }
  }

  /** A last byte other than zero leaves no integer one byte earlier. */
  lemma LastByteNonzero(code: seq<byte>, n: nat)
    requires code != [] && Enc.NoTrailingZero(code)
    ensures ShlReal(Fraction(code), 8 * (|code| - 1)) != n as real
  {
    if ShlReal(Fraction(code), 8 * (|code| - 1)) == n as real {
      ShlRealAdd(Fraction(code), 8 * (|code| - 1), 8);
      Shl8(n as real);
      FractionShlIsNumber(code);
      assert false;
    }
  }
}
