/** Numbers as byte sequences: the positional values that the readers and
    stores are measured against. */
module Bytes {
  import opened Bits

  type Byte = b: int | 0 <= b < 256

  /** Low byte first. */
  function FromLE(s: seq<Byte>): nat {
    if s == [] then 0 else s[0] + 256 * FromLE(s[1..])
  }

  /** High byte first. */
  function FromBE(s: seq<Byte>): nat {
    if s == [] then 0 else s[0] * Pow2(8 * (|s| - 1)) + FromBE(s[1..])
  }

  /** The n low bytes of the two's complement of v, low byte first. */
  function ToLE(n: nat, v: int): (s: seq<Byte>)
    ensures |s| == n
  {
    if n == 0 then [] else [v % 256] + ToLE(n - 1, v / 256)
  }

  function Reverse(s: seq<Byte>): (r: seq<Byte>)
    ensures |r| == |s|
    ensures forall i | 0 <= i < |s| :: r[i] == s[|s| - 1 - i]
  {
    if s == [] then [] else Reverse(s[1..]) + [s[0]]
  }

  function ToBE(n: nat, v: int): (s: seq<Byte>)
    ensures |s| == n
  {
    Reverse(ToLE(n, v))
  }

  function Zeros(n: nat): seq<Byte> {
    seq(n, _ => 0)
  }

  /** v converted to a w-bit unsigned type. */
  function Unsigned(w: nat, v: int): nat {
    v % Pow2(w)
  }

  /** v converted to a w-bit signed type. */
  function Signed(w: nat, v: int): int
    requires w > 0
  {
    var m := Unsigned(w, v);
    if m < Pow2(w - 1) then m else m - Pow2(w)
  }

  /** A buffer after some elements have been written into it. */
  function Stored<T>(buffer: seq<T>, at: nat, part: seq<T>): seq<T>
    requires at + |part| <= |buffer|
  {
    buffer[..at] + part + buffer[at + |part|..]
  }

  lemma StoredGrows<T>(before: seq<T>, at: nat, part: seq<T>, x: T)
    requires at + |part| < |before|
    ensures Stored(before, at, part)[at + |part| := x] == Stored(before, at, part + [x])
  {
  }

  lemma StoredTwice<T>(buffer: seq<T>, at: nat, a: seq<T>, b: seq<T>)
    requires at + |a| + |b| <= |buffer|
    ensures Stored(Stored(buffer, at, a), at + |a|, b) == Stored(buffer, at, a + b)
  {
  }

  // ----- values of concatenations -----

  lemma {:induction false} ByteBits(n: nat)
    ensures Pow2(8 * (n + 1)) == 256 * Pow2(8 * n)
  {
    PowSum(8, 8 * n);
    assert Pow2(8) == 256;
  }

  lemma {:induction false} BoundLE(s: seq<Byte>)
    ensures FromLE(s) < Pow2(8 * |s|)
  {
    if s == [] {
    } else {
      BoundLE(s[1..]);
      ByteBits(|s| - 1);
    }
  }

  lemma {:induction false} ConcatLE(a: seq<Byte>, b: seq<Byte>)
    ensures FromLE(a + b) == FromLE(a) + FromLE(b) * Pow2(8 * |a|)
  {
    if a == [] {
      assert a + b == b;
    } else {
      assert (a + b)[1..] == a[1..] + b;
      ConcatLE(a[1..], b);
      ByteBits(|a| - 1);
      MulAssociates(256, FromLE(b), Pow2(8 * (|a| - 1)));
      MulAssociates(FromLE(b), 256, Pow2(8 * (|a| - 1)));
    }
  }

  lemma {:induction false} ZerosLE(n: nat)
    ensures FromLE(Zeros(n)) == 0
  {
    if n == 0 {
    } else {
      assert Zeros(n)[1..] == Zeros(n - 1);
      ZerosLE(n - 1);
    }
  }

  lemma ReverseConcat(a: seq<Byte>, b: seq<Byte>)
    ensures Reverse(a + b) == Reverse(b) + Reverse(a)
  {
  }

  lemma ReverseTwice(s: seq<Byte>)
    ensures Reverse(Reverse(s)) == s
  {
  }

  lemma {:induction false} BigIsReversedLittle(s: seq<Byte>)
    ensures FromBE(s) == FromLE(Reverse(s))
  {
    if s == [] {
    } else {
      BigIsReversedLittle(s[1..]);
      ConcatLE(Reverse(s[1..]), [s[0]]);
      assert FromLE([s[0]]) == s[0];
    }
  }

  // ----- there and back -----

  lemma {:induction false} BytesOfValue(s: seq<Byte>)
    ensures ToLE(|s|, FromLE(s)) == s
  {
    if s == [] {
    } else {
      BytesOfValue(s[1..]);
      DivisionIs(FromLE(s), 256, FromLE(s[1..]), s[0]);
    }
  }

  lemma {:induction false} ValueOfBytes(n: nat, v: int)
    ensures FromLE(ToLE(n, v)) == v % Pow2(8 * n)
  {
    if n == 0 {
      DivisionIs(v, 1, v, 0);
    } else {
      var m := Pow2(8 * (n - 1));
      ValueOfBytes(n - 1, v / 256);
      ByteBits(n - 1);
      DivDiv(v, 256, m);
    }
  }

  lemma BigRoundTrip(n: nat, v: int)
    ensures FromBE(ToBE(n, v)) == v % Pow2(8 * n)
  {
    BigIsReversedLittle(ToBE(n, v));
    ReverseTwice(ToLE(n, v));
    ValueOfBytes(n, v);
  }

  lemma SignedRange(w: nat, v: int)
    requires w > 0 && -(Pow2(w - 1) as int) <= v < Pow2(w - 1)
    ensures Signed(w, v) == v
  {
    DivisionIs(v, Pow2(w), if v < 0 then -1 else 0, if v < 0 then v + Pow2(w) else v);
  }

  lemma SignedOfMod(w: nat, v: int)
    requires w > 0
    ensures Signed(w, v % Pow2(w)) == Signed(w, v)
  {
    DivisionIs(v % Pow2(w), Pow2(w), 0, v % Pow2(w));
  }

  /** A signed value in range survives being cut to w bits. */
  lemma SignedBack(w: nat, v: int)
    requires w > 0 && -(Pow2(w - 1) as int) <= v < Pow2(w - 1)
    ensures Signed(w, v % Pow2(w)) == v
  {
    SignedOfMod(w, v);
    SignedRange(w, v);
  }

  /** Byte k of a number. */
  lemma {:induction false} ByteAt(n: nat, v: int, k: nat)
    requires k < n
    ensures ToLE(n, v)[k] == Shr(v, 8 * k) % 256
  {
    if k == 0 {
    } else {
      ByteAt(n - 1, v / 256, k - 1);
      DivDiv(v, 256, Pow2(8 * (k - 1)));
      ByteBits(k - 1);
    }
  }

  lemma ShiftByOneMore(v: int, k: nat)
    ensures Shr(v / 256, 8 * k) == Shr(v, 8 * (k + 1))
  {
    DivDiv(v, 256, Pow2(8 * k));
    ByteBits(k);
  }

  lemma {:induction false} ConcatToLE(a: nat, b: nat, v: int)
    ensures ToLE(a + b, v) == ToLE(a, v) + ToLE(b, Shr(v, 8 * a))
  {
    if a == 0 {
      assert Shr(v, 0) == v;
    } else {
      ConcatToLE(a - 1, b, v / 256);
      ShiftByOneMore(v, a - 1);
      FirstOfLE(a, v);
      FirstOfLE(a + b, v);
    }
  }

  lemma FirstOfLE(n: nat, v: int)
    requires n > 0
    ensures ToLE(n, v) == [v % 256] + ToLE(n - 1, v / 256)
  {
  }

  /** Truncating to a wider type first does not change the low bytes. */
  lemma {:induction false} LowBytes(n: nat, m: nat, v: int)
    requires n <= m
    ensures ToLE(n, v % Pow2(8 * m)) == ToLE(n, v)
  {
    ValueOfBytes(m, v);
    BytesOfValue(ToLE(m, v));
    ConcatToLE(n, m - n, v);
    ConcatToLE(n, m - n, v % Pow2(8 * m));
    assert ToLE(m, v)[..n] == ToLE(n, v);
    assert ToLE(m, v % Pow2(8 * m))[..n] == ToLE(n, v % Pow2(8 * m));
  }

  // ----- shifting and or-ing bytes together -----

  lemma ShiftLE(w: nat, s: seq<Byte>, zeros: nat)
    requires 8 * (zeros + |s|) <= w
    ensures Shl(w, FromLE(s), 8 * zeros) == FromLE(s) * Pow2(8 * zeros) == FromLE(Zeros(zeros) + s)
  {
    ZerosLE(zeros);
    ConcatLE(Zeros(zeros), s);
    BoundLE(Zeros(zeros) + s);
    PowIncreases(8 * (zeros + |s|), w);
    DivisionIs(FromLE(s) * Pow2(8 * zeros), Pow2(w), 0, FromLE(s) * Pow2(8 * zeros));
  }

  /** low | (high << 8 * |a|), in either order of the operands. */
  lemma OrLE(w: nat, a: seq<Byte>, b: seq<Byte>)
    requires 8 * (|a| + |b|) <= w
    ensures Or(FromLE(a), Shl(w, FromLE(b), 8 * |a|)) == FromLE(a + b)
    ensures Or(Shl(w, FromLE(b), 8 * |a|), FromLE(a)) == FromLE(a + b)
  {
    ShiftLE(w, b, |a|);
    BoundLE(a);
    OrIsSum(FromLE(a), FromLE(b), 8 * |a|);
    OrCommutes(FromLE(a), FromLE(b) * Pow2(8 * |a|));
    ConcatLE(a, b);
  }

  /** Or-ing the next byte of s onto those before it. */
  lemma OrByte(w: nat, s: seq<Byte>, k: nat)
    requires k < |s| && 8 * (k + 1) <= w
    ensures Or(FromLE(s[..k]), Shl(w, s[k], 8 * k)) == FromLE(s[..k + 1])
  {
    OneByte(s[k]);
    OrLE(w, s[..k], [s[k]]);
    assert s[..k] + [s[k]] == s[..k + 1];
  }

  lemma FirstByte(s: seq<Byte>)
    requires s != []
    ensures FromLE(s[..1]) == s[0]
  {
    OneByte(s[0]);
    assert s[..1] == [s[0]];
  }

  /** A cast to a type that is wide enough keeps the value. */
  lemma CastLE(w: nat, s: seq<Byte>)
    requires 8 * |s| <= w
    ensures Unsigned(w, FromLE(s)) == FromLE(s)
  {
    BoundLE(s);
    PowIncreases(8 * |s|, w);
    DivisionIs(FromLE(s), Pow2(w), 0, FromLE(s));
  }

  lemma OneByte(b: Byte)
    ensures FromLE([b]) == b
  {
    assert FromLE([]) == 0;
  }

  // ----- order -----

  /** The order memcmp gives buffers of equal length. */
  predicate LexLess(s: seq<Byte>, t: seq<Byte>)
    requires |s| == |t|
  {
    s != [] && (s[0] < t[0] || (s[0] == t[0] && LexLess(s[1..], t[1..])))
  }

  lemma {:induction false} BoundBE(s: seq<Byte>)
    ensures FromBE(s) < Pow2(8 * |s|)
  {
    BigIsReversedLittle(s);
    BoundLE(Reverse(s));
  }

  lemma LeadingDigitDecides(a: int, b: int, x: int, y: int, p: int)
    requires 0 <= x < p && 0 <= y < p
    ensures a * p + x < b * p + y <==> a < b || (a == b && x < y)
  {
    if a < b {
      MulKeepsOrder(p, a + 1, b);
      MulDistributes(p, a, 1);
    } else if b < a {
      MulKeepsOrder(p, b + 1, a);
      MulDistributes(p, b, 1);
    }
  }

  /** High-byte-first storage is order preserving, whatever the width. */
  lemma {:induction false} ByteOrderIsNumericOrder(s: seq<Byte>, t: seq<Byte>)
    requires |s| == |t|
    ensures LexLess(s, t) <==> FromBE(s) < FromBE(t)
  {
    if s == [] {
    } else {
      BoundBE(s[1..]);
      BoundBE(t[1..]);
      LeadingDigitDecides(s[0], t[0], FromBE(s[1..]), FromBE(t[1..]), Pow2(8 * (|s| - 1)));
      ByteOrderIsNumericOrder(s[1..], t[1..]);
    }
  }
}
