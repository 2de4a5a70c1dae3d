/**
 The LEB128 readers of `leb128.h`: unsigned, signed and skipping.

 `Length`, `Value` and `SignedValue` say what a byte string denotes (section 7.6 of the
 DWARF Debugging Information Format, Version 4); `EncodeUnsigned` and `EncodeSigned`
 are the canonical writers that the readers must invert.
 */
module Leb128 {
  import opened Bits
  import opened Common

  /** Bytes up to and including the first without a continuation bit; 0 if there is none. */
  function Length(buf: seq<Byte>): (n: nat)
    ensures n <= |buf|
  {
    if buf == [] then 0
    else if buf[0] < 128 then 1
    else var n := Length(buf[1..]); if n == 0 then 0 else n + 1
  }

  function Value(bs: seq<Byte>): nat {
    if bs == [] then 0 else bs[0] % 128 + 128 * Value(bs[1..])
  }

  /** Two's complement of `7 * |bs|` bits. */
  function SignedValue(bs: seq<Byte>): int {
    if bs != [] && bs[|bs| - 1] % 128 >= 64 then Value(bs) - Pow2(7 * |bs|) else Value(bs)
  }

  /** Longer encodings shift a 64-bit value by 64 or more, which C leaves undefined. */
  predicate NoOverlongShift(buf: seq<Byte>) {
    if Length(buf) == 0 then |buf| <= 10 else Length(buf) <= 10
  }

  const HALF64: nat := 0x8000_0000_0000_0000

  predicate IsInt64(v: int) { 0 - HALF64 <= v < HALF64 }

  /** `a` and `b` agree on their low 64 bits. */
  ghost predicate Agree64(a: int, b: int) {
    exists k: int :: Shifted64(a, b, k)
  }

  ghost predicate Shifted64(a: int, b: int, k: int) { a == b + k * MOD64 }

  // ---------------------------------------------------------------- the readers

  /** Returns the bytes read and the value stored; reading off the end stores nothing. */
  method ReadUleb128(buf: seq<Byte>) returns (n: nat, r: Option<nat>)
    requires NoOverlongShift(buf)
    ensures n == Length(buf)
    ensures r == if n == 0 then None else Some(Wrap(Value(buf[..n]), MOD64))
  {
    var p, shift, result := 0, 0, 0;
    while true
      invariant p <= |buf| && shift == 7 * p && Continues(buf, p)
      invariant p <= 9 ==> result == Value(buf[..p])
      decreases |buf| - p
    {
      LengthFrom(buf, p);
      if p >= |buf| {
        return 0, None;
      }
      var byte := buf[p];
      Accumulate(buf, p);
      p := p + 1;
      result := BitOr(result, Wrap(BitAnd(byte, 0x7f) * Pow2(shift), MOD64));
      if BitAnd(byte, 0x80) == 0 {
        break;
      }
      shift := shift + 7;
    }
    return p, Some(result);
  }

  method ReadSleb128(buf: seq<Byte>) returns (n: nat, r: Option<int>)
    requires NoOverlongShift(buf)
    ensures n == Length(buf)
    ensures n == 0 <==> r.None?
    ensures n > 0 ==> IsInt64(r.value) && Agree64(r.value, SignedValue(buf[..n]))
  {
    var p, shift, result := 0, 0, 0;
    var byte: Byte := 0;
    while true
      invariant p <= |buf| && shift == 7 * p && Continues(buf, p)
      invariant p <= 9 ==> result == Value(buf[..p])
      decreases |buf| - p
    {
      LengthFrom(buf, p);
      if p >= |buf| {
        return 0, None;
      }
      byte := buf[p];
      Accumulate(buf, p);
      p := p + 1;
      result := BitOr(result, Wrap(BitAnd(byte, 0x7f) * Pow2(shift), MOD64));
      shift := shift + 7;
      if BitAnd(byte, 0x80) == 0 {
        break;
      }
    }
    var v := Extend(buf[..p], shift, byte, result);
    return p, Some(v);
  }

  /** The tail of the signed reader: `result |= -(1 << shift)`, then conversion to `int64_t`. */
  method Extend(ghost bs: seq<Byte>, shift: nat, byte: Byte, result0: nat) returns (r: int)
    requires 1 <= |bs| <= 10 && shift == 7 * |bs| && byte == bs[|bs| - 1]
    requires result0 == Wrap(Value(bs), MOD64)
    ensures IsInt64(r) && Agree64(r, SignedValue(bs))
  {
    var result := result0;
    Bits6(byte);
    SignBounds(bs);
    WrapBelow(Value(bs), MOD64);
    if shift < 64 {
      Below64(shift);
      if BitAnd(byte, 0x40) != 0 {
        ExtendedBits(Value(bs), shift);
        result := BitOr(result, MOD64 - Pow2(shift));
      }
      assert Shifted64(ToInt64(result), SignedValue(bs), 0);
    } else {
      TenBytes(bs);
    }
    r := ToInt64(result);
  }

  function ToInt64(x: nat): int { if x < HALF64 then x else x - MOD64 }

  method SkipLeb128(buf: seq<Byte>) returns (n: nat)
    ensures n == Length(buf)
  {
    var p := 0;
    while true
      invariant p <= |buf| && Continues(buf, p)
      decreases |buf| - p
    {
      LengthFrom(buf, p);
      if p == |buf| {
        return 0;
      }
      var byte := buf[p];
      p := p + 1;
      Bits7(byte);
      if BitAnd(byte, 0x80) == 0 {
        return p;
      }
    }
  }

  /** The first `p` bytes all carry the continuation bit. */
  ghost predicate Continues(buf: seq<Byte>, p: nat)
    requires p <= |buf|
  {
    forall i :: 0 <= i < p ==> buf[i] >= 128
  }

  lemma {:induction false} LengthFrom(buf: seq<Byte>, p: nat)
    requires p <= |buf| && Continues(buf, p)
    ensures p == |buf| ==> Length(buf) == 0
    ensures p < |buf| && buf[p] < 128 ==> Length(buf) == p + 1
    ensures Length(buf) == 0 || Length(buf) > p
  {
    if p > 0 { LengthFrom(buf[1..], p - 1); }
  }

  lemma Bits7(b: Byte)
    ensures BitAnd(b, 0x80) == 0 <==> b < 128
    ensures BitAnd(b, 0x7f) == b % 128
  {
    AndBit(b, 7);
    AndMask(b, 7);
    ShrPositive(b, 7);
    ShrBound(b, 7, 1);
  }

  lemma Bits6(b: Byte)
    ensures BitAnd(b, 0x40) == 0 <==> b % 128 < 64
  {
    AndBit(b, 6);
    Six(b);
  }

  lemma Six(b: Byte)
    ensures Shr(b, 6) == b / 64
  {
    ShrSplit(b, 6);
    assert Pow2(6) == 64;
    DivModUnique(b, 64, Shr(b, 6), BitAnd(b, 63));
  }

  lemma Powers()
    ensures Pow2(64) == MOD64 && Pow2(63) == HALF64 && Pow2(69) == 64 * HALF64 && Pow2(70) == 64 * MOD64
  {
    assert Pow2(8) == 0x100 && Pow2(7) == 0x80 && Pow2(6) == 0x40 && Pow2(1) == 2;
    PowerProduct(8, 8, 0x100, 0x100, 0x1_0000);
    PowerProduct(16, 8, 0x1_0000, 0x100, 0x100_0000);
    PowerProduct(24, 24, 0x100_0000, 0x100_0000, 0x1_0000_0000_0000);
    PowerProduct(48, 8, 0x1_0000_0000_0000, 0x100, 0x100_0000_0000_0000);
    PowerProduct(56, 7, 0x100_0000_0000_0000, 0x80, HALF64);
    PowerProduct(63, 1, HALF64, 2, MOD64);
    PowerProduct(63, 6, HALF64, 0x40, 64 * HALF64);
    PowerProduct(69, 1, 64 * HALF64, 2, 64 * MOD64);
  }

  lemma PowerProduct(a: nat, b: nat, pa: nat, pb: nat, p: nat)
    requires Pow2(a) == pa && Pow2(b) == pb && p == pa * pb
    ensures Pow2(a + b) == p
  {
    Pow2Add(a, b);
  }

  lemma OrShifted64(y: nat, x: nat, s: nat)
    requires y < Pow2(s) && s < 64
    ensures BitOr(y, Wrap(x * Pow2(s), MOD64)) == Wrap(y + x * Pow2(s), MOD64)
  {
    Powers();
    OrShifted(y, x, s, 64);
  }

  lemma Below64(s: nat)
    requires s <= 63
    ensures Pow2(s) <= HALF64
  {
    Powers();
    Pow2Monotone(s, 63);
  }

  lemma {:induction false} ValueAppend(bs: seq<Byte>, b: Byte)
    ensures Value(bs + [b]) == Value(bs) + (b % 128) * Pow2(7 * |bs|)
  {
    if bs != [] {
      assert (bs + [b])[1..] == bs[1..] + [b];
      ValueAppend(bs[1..], b);
      Septet(|bs| - 1);
      assert (b % 128) * (128 * Pow2(7 * |bs[1..]|)) == 128 * ((b % 128) * Pow2(7 * |bs[1..]|));
    } else {
      assert (bs + [b])[1..] == [];
    }
  }

  lemma Septet(n: nat)
    ensures Pow2(7 * (n + 1)) == 128 * Pow2(7 * n)
  {
    Pow2Add(7, 7 * n);
  }

  lemma {:induction false} ValueBound(bs: seq<Byte>)
    ensures Value(bs) < Pow2(7 * |bs|)
  {
    if bs != [] {
      ValueBound(bs[1..]);
      Septet(|bs| - 1);
    }
  }

  /** One turn of either read loop. */
  lemma Accumulate(buf: seq<Byte>, p: nat)
    requires p < |buf| && p <= 9
    ensures BitAnd(buf[p], 0x80) == 0 <==> buf[p] < 128
    ensures BitOr(Value(buf[..p]), Wrap(BitAnd(buf[p], 0x7f) * Pow2(7 * p), MOD64)) == Wrap(Value(buf[..p + 1]), MOD64)
    ensures p < 9 ==> Wrap(Value(buf[..p + 1]), MOD64) == Value(buf[..p + 1])
  {
    Bits7(buf[p]);
    assert buf[..p + 1] == buf[..p] + [buf[p]];
    ValueAppend(buf[..p], buf[p]);
    ValueBound(buf[..p]);
    ValueBound(buf[..p + 1]);
    OrShifted64(Value(buf[..p]), buf[p] % 128, 7 * p);
    if p < 9 { Below64(7 * (p + 1)); }
  }

  /** The top bit of the last septet decides which half of the range the value is in. */
  lemma SignBounds(bs: seq<Byte>)
    requires bs != []
    ensures Value(bs) < Pow2(7 * |bs|) == 2 * Pow2(7 * |bs| - 1)
    ensures bs[|bs| - 1] % 128 >= 64 <==> Value(bs) >= Pow2(7 * |bs| - 1)
  {
    var init, last := bs[..|bs| - 1], bs[|bs| - 1];
    assert bs == init + [last];
    ValueAppend(init, last);
    ValueBound(init);
    Pow2Add(6, 7 * |init|);
    assert 7 * |bs| - 1 == 6 + 7 * |init| && Pow2(6) == 64;
    TopSeptet(last % 128, Pow2(7 * |init|), Value(init));
  }

  lemma TopSeptet(t: nat, u: nat, v: nat)
    requires t < 128 && v < u
    ensures v + t * u < 128 * u && (t >= 64 <==> v + t * u >= 64 * u)
  {
    MulMonotone(t, 127, u);
    if t >= 64 { MulMonotone(64, t, u); } else { MulMonotone(t, 63, u); }
  }

  lemma ExtendedBits(v: nat, shift: nat)
    requires v < Pow2(shift) && shift <= 63
    ensures Pow2(shift) <= MOD64
    ensures BitOr(v, MOD64 - Pow2(shift)) == v + (MOD64 - Pow2(shift))
  {
    Powers();
    Below64(shift);
    HighBits(v, shift, 64);
  }

  lemma HighBits(v: nat, s: nat, w: nat)
    requires v < Pow2(s) <= Pow2(w) && s <= w
    ensures BitOr(v, Pow2(w) - Pow2(s)) == v + (Pow2(w) - Pow2(s))
  {
    var k := Pow2(w - s) - 1;
    Pow2Add(w - s, s);
    DistributeMul(k, 1, Pow2(s));
    DivModUnique(Pow2(w) - Pow2(s), Pow2(s), k, 0);
    OrCommutes(v, Pow2(w) - Pow2(s));
    OrDisjoint(Pow2(w) - Pow2(s), v, s);
  }

  /** At 70 bits of shift nothing is extended: the excess bits are a multiple of 2^64. */
  lemma TenBytes(bs: seq<Byte>)
    requires |bs| == 10
    ensures Agree64(ToInt64(Wrap(Value(bs), MOD64)), SignedValue(bs))
  {
    var k := WrapQuotient(Value(bs), MOD64);
    var w := Wrap(Value(bs), MOD64);
    Powers();
    var k1 := (if bs[9] % 128 >= 64 then 64 else 0) - k - (if w < HALF64 then 0 else 1);
    assert Shifted64(ToInt64(w), SignedValue(bs), k1);
  }

  lemma {:induction false} WrapQuotient(x: nat, m: nat) returns (k: int)
    requires m > 0
    ensures Wrap(x, m) == x - k * m
    decreases x
  {
    if x < m {
      k := 0;
    } else {
      k := WrapQuotient(x - m, m);
      DistributeMul(k, 1, m);
      k := k + 1;
    }
  }

  /** The signed result is the one 64-bit value that agrees: it is the value itself when that fits. */
  lemma Agree64Unique(a: int, b: int)
    requires IsInt64(a) && IsInt64(b) && Agree64(a, b)
    ensures a == b
  {
    var k :| Shifted64(a, b, k);
  }

  // ---------------------------------------------------------------- the writers

  function EncodeUnsigned(v: nat): seq<Byte> {
    if v < 128 then [v] else [v % 128 + 128] + EncodeUnsigned(v / 128)
  }

  function EncodeSigned(v: int): seq<Byte>
    decreases if v < 0 then -v else v
  {
    if -64 <= v < 64 then [v % 128] else [v % 128 + 128] + EncodeSigned(v / 128)
  }

  lemma {:induction false} UnsignedRoundTrip(v: nat, rest: seq<Byte>)
    ensures var e := EncodeUnsigned(v);
            Length(e + rest) == |e| > 0 && Value(e) == v
  {
    var e := EncodeUnsigned(v);
    if v >= 128 {
      UnsignedRoundTrip(v / 128, rest);
      assert (e + rest)[1..] == EncodeUnsigned(v / 128) + rest;
    }
  }

  lemma {:induction false} UnsignedSize(v: nat, n: nat)
    requires n > 0 && v < Pow2(7 * n)
    ensures |EncodeUnsigned(v)| <= n
  {
    if v >= 128 {
      Septet(n - 1);
      UnsignedSize(v / 128, n - 1);
    }
  }

  lemma {:induction false} SignedRoundTrip(v: int, rest: seq<Byte>)
    ensures Length(EncodeSigned(v) + rest) == |EncodeSigned(v)| > 0
    ensures SignedValue(EncodeSigned(v)) == v
    decreases if v < 0 then -v else v
  {
    var e := EncodeSigned(v);
    if -64 <= v < 64 {
      SingleByte(v, if v < 0 then v + 128 else v, rest);
    } else {
      SignedRoundTrip(v / 128, rest);
      assert (e + rest)[1..] == EncodeSigned(v / 128) + rest;
      SignedValueCons(v % 128 + 128, EncodeSigned(v / 128));
    }
  }

  lemma SingleByte(v: int, b: Byte, rest: seq<Byte>)
    requires -64 <= v < 64 && b == if v < 0 then v + 128 else v
    ensures EncodeSigned(v) == [b] && SignedValue([b]) == v && Length([b] + rest) == 1
  {
    assert v % 128 == b && b % 128 == b;
    assert [b][1..] == [] && Value([b]) == b;
    assert |[b]| == 1 && Pow2(7 * 1) == 128;
    assert ([b] + rest)[0] == b;
  }

  lemma SignedValueCons(b: Byte, bs: seq<Byte>)
    requires bs != []
    ensures SignedValue([b] + bs) == b % 128 + 128 * SignedValue(bs)
  {
    var e := [b] + bs;
    assert e[1..] == bs && e[|e| - 1] == bs[|bs| - 1];
    Septet(|bs|);
  }

  lemma {:induction false} SignedSize(v: int, n: nat)
    requires n > 0 && 0 - Pow2(7 * n - 1) <= v < Pow2(7 * n - 1)
    ensures |EncodeSigned(v)| <= n
    decreases n
  {
    if !(-64 <= v < 64) {
      assert n > 1 by { assert Pow2(6) == 64; }
      Pow2Add(7, 7 * n - 8);
      SignedSize(v / 128, n - 1);
    }
  }

  // ---------------------------------------------------------------- streams of values

  /** What the unsigned reader delivers, as a function of the buffer. */
  function ReadU(buf: seq<Byte>): Option<(nat, seq<Byte>)> {
    var n := Length(buf);
    if n == 0 then None else Some((Wrap(Value(buf[..n]), MOD64), buf[n..]))
  }

  function ReadAllU(buf: seq<Byte>, count: nat): Option<seq<nat>> {
    if count == 0 then Some([])
    else match ReadU(buf)
         case None => None
         case Some((v, rest)) =>
           match ReadAllU(rest, count - 1)
           case None => None
           case Some(vs) => Some([v] + vs)
  }

  function WriteAllU(vs: seq<nat>): seq<Byte> {
    if vs == [] then [] else EncodeUnsigned(vs[0]) + WriteAllU(vs[1..])
  }

  /** Every list of 64-bit values survives, whatever follows it in the buffer. */
  lemma {:induction false} UnsignedStream(vs: seq<nat>, rest: seq<Byte>)
    requires forall i :: 0 <= i < |vs| ==> vs[i] < MOD64
    ensures ReadAllU(WriteAllU(vs) + rest, |vs|) == Some(vs)
    ensures vs != [] ==> NoOverlongShift(WriteAllU(vs) + rest)
  {
    if vs != [] {
      var e, tail := EncodeUnsigned(vs[0]), WriteAllU(vs[1..]) + rest;
      assert WriteAllU(vs) + rest == e + tail;
      ReadBackU(vs[0], tail);
      UnsignedStream(vs[1..], rest);
      assert vs == [vs[0]] + vs[1..];
    }
  }

  lemma ReadBackU(v: nat, tail: seq<Byte>)
    requires v < MOD64
    ensures ReadU(EncodeUnsigned(v) + tail) == Some((v, tail))
    ensures NoOverlongShift(EncodeUnsigned(v) + tail)
  {
    var e := EncodeUnsigned(v);
    UnsignedRoundTrip(v, tail);
    Powers();
    UnsignedSize(v, 10);
    assert (e + tail)[..|e|] == e && (e + tail)[|e|..] == tail;
  }

  /** Any value the signed reader may deliver, per its contract. */
  ghost predicate ReadsAs(buf: seq<Byte>, v: int) {
    Length(buf) > 0 && IsInt64(v) && Agree64(v, SignedValue(buf[..Length(buf)]))
  }

  /** `vs` is what repeated signed reading delivers, and `rest` is what it leaves. */
  ghost predicate ReadsAllAs(buf: seq<Byte>, vs: seq<int>, rest: seq<Byte>) {
    if vs == [] then buf == rest
    else ReadsAs(buf, vs[0]) && ReadsAllAs(buf[Length(buf)..], vs[1..], rest)
  }

  function WriteAllS(vs: seq<int>): seq<Byte> {
    if vs == [] then [] else EncodeSigned(vs[0]) + WriteAllS(vs[1..])
  }

  /** Every list of 64-bit values survives, and repeated reading cannot deliver anything else. */
  lemma SignedStream(vs: seq<int>, rest: seq<Byte>)
    requires forall i :: 0 <= i < |vs| ==> IsInt64(vs[i])
    ensures ReadsAllAs(WriteAllS(vs) + rest, vs, rest)
    ensures forall got, left ::
              |got| == |vs| && ReadsAllAs(WriteAllS(vs) + rest, got, left) ==> got == vs && left == rest
    ensures vs != [] ==> NoOverlongShift(WriteAllS(vs) + rest)
  {
    StreamDelivers(vs, rest);
    forall got, left | |got| == |vs| && ReadsAllAs(WriteAllS(vs) + rest, got, left)
      ensures got == vs && left == rest
    {
      StreamUnique(vs, rest, got, left);
    }
  }

  lemma {:induction false} StreamDelivers(vs: seq<int>, rest: seq<Byte>)
    requires forall i :: 0 <= i < |vs| ==> IsInt64(vs[i])
    ensures ReadsAllAs(WriteAllS(vs) + rest, vs, rest)
    ensures vs != [] ==> NoOverlongShift(WriteAllS(vs) + rest)
  {
    if vs != [] {
      var tail := WriteAllS(vs[1..]) + rest;
      assert WriteAllS(vs) + rest == EncodeSigned(vs[0]) + tail;
      ReadBackS(vs[0], tail);
      StreamDelivers(vs[1..], rest);
    } else {
      assert WriteAllS(vs) + rest == rest;
    }
  }

  lemma ReadBackS(v: int, tail: seq<Byte>)
    requires IsInt64(v)
    ensures var buf := EncodeSigned(v) + tail;
            && ReadsAs(buf, v) && buf[Length(buf)..] == tail && NoOverlongShift(buf)
            && SignedValue(buf[..Length(buf)]) == v
  {
    var e := EncodeSigned(v);
    SignedRoundTrip(v, tail);
    SignedSize64(v);
    assert (e + tail)[..|e|] == e && (e + tail)[|e|..] == tail;
    assert Shifted64(v, v, 0);
  }

  lemma {:induction false} StreamUnique(vs: seq<int>, rest: seq<Byte>, got: seq<int>, left: seq<Byte>)
    requires forall i :: 0 <= i < |vs| ==> IsInt64(vs[i])
    requires |got| == |vs| && ReadsAllAs(WriteAllS(vs) + rest, got, left)
    ensures got == vs && left == rest
  {
    if vs != [] {
      var tail := WriteAllS(vs[1..]) + rest;
      assert WriteAllS(vs) + rest == EncodeSigned(vs[0]) + tail;
      ReadBackS(vs[0], tail);
      Agree64Unique(got[0], vs[0]);
      StreamUnique(vs[1..], rest, got[1..], left);
      assert got == [got[0]] + got[1..] && vs == [vs[0]] + vs[1..];
    } else {
      assert WriteAllS(vs) + rest == rest;
    }
  }

  lemma SignedSize64(v: int)
    requires IsInt64(v)
    ensures |EncodeSigned(v)| <= 10
  {
    Powers();
    SignedSize(v, 10);
  }

  /** Every proper prefix of an encoding is refused by all three readers: they return 0. */
  lemma {:induction false} Truncated(bs: seq<Byte>, k: nat)
    requires Length(bs) == |bs| && k < |bs|
    ensures Length(bs[..k]) == 0
  {
    if k > 0 {
      assert bs[..k][1..] == bs[1..][..k - 1];
      Truncated(bs[1..], k - 1);
    }
  }

  /** The examples the standard gives for unsigned numbers. */
  lemma UnsignedExamples()
    ensures EncodeUnsigned(2) == [2] && EncodeUnsigned(127) == [127]
    ensures EncodeUnsigned(128) == [0x80, 1] && EncodeUnsigned(129) == [0x81, 1] && EncodeUnsigned(130) == [0x82, 1]
    ensures EncodeUnsigned(12857) == [57 + 0x80, 100]
  {
  }

  /** And those for signed ones. */
  lemma SignedExamples()
    ensures EncodeSigned(2) == [2] && EncodeSigned(-2) == [0x7e]
    ensures EncodeSigned(127) == [127 + 0x80, 0] && EncodeSigned(-127) == [1 + 0x80, 0x7f]
    ensures EncodeSigned(128) == [0 + 0x80, 1] && EncodeSigned(-128) == [0 + 0x80, 0x7f]
    ensures EncodeSigned(129) == [1 + 0x80, 1] && EncodeSigned(-129) == [0x7f + 0x80, 0x7e]
  {
  }
}
