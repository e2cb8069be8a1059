/** High-byte-first numbers: the shift-and-or readers of the replication header,
    the 32-bit network reader, and the native-format macros of a big-endian
    host; and how all of these relate to the other byte order. */
module ByteOrderBig {
  import opened Bits
  import opened Bytes
  import Generic = ByteOrderGeneric
  import X86 = ByteOrderX86

  // ----- mariadb_rpl.h -----

  /** Or-ing the bytes of s onto each other from the last one upwards, k of them. */
  lemma Backwards(w: nat, s: seq<Byte>)
    requires 8 * |s| <= w
    ensures FromLE(Reverse(s)) == FromBE(s)
    ensures s != [] ==> FromLE(Reverse(s)[..1]) == s[|s| - 1]
    ensures forall k | 1 <= k < |s| ::
              Or(FromLE(Reverse(s)[..k]), Shl(w, s[|s| - 1 - k], 8 * k)) == FromLE(Reverse(s)[..k + 1])
    ensures Reverse(s)[..|s|] == Reverse(s)
  {
    BigIsReversedLittle(s);
    if s != [] {
      FirstByte(Reverse(s));
    }
    forall k | 1 <= k < |s|
      ensures Or(FromLE(Reverse(s)[..k]), Shl(w, s[|s| - 1 - k], 8 * k)) == FromLE(Reverse(s)[..k + 1])
    {
      OrByte(w, Reverse(s), k);
    }
  }

  function MyisamUint1korr(b: seq<Byte>): (r: nat)
    requires |b| >= 1
    ensures r == FromBE(b[..1])
  {
    BigIsReversedLittle(b[..1]);
    FirstByte(b);
    assert Reverse(b[..1]) == b[..1];
    b[0]
  }

  function MyisamUint2korr(b: seq<Byte>): (r: nat)
    requires |b| >= 2
    ensures r == FromBE(b[..2])
  {
    Backwards(32, b[..2]); CastBE(16, b[..2]);
    Unsigned(16, Or(b[1], Shl(32, b[0], 8)))
  }

  function MyisamUint3korr(b: seq<Byte>): (r: nat)
    requires |b| >= 3
    ensures r == FromBE(b[..3])
  {
    Backwards(32, b[..3]);
    Or(Or(b[2], Shl(32, b[1], 8)), Shl(32, b[0], 16))
  }

  function MyisamUint4korr(b: seq<Byte>): (r: nat)
    requires |b| >= 4
    ensures r == FromBE(b[..4])
  {
    Backwards(32, b[..4]);
    Or(Or(Or(b[3], Shl(32, b[2], 8)), Shl(32, b[1], 16)), Shl(32, b[0], 24))
  }

  function MyisamSint1korr(b: seq<Byte>): (r: int)
    requires |b| >= 1
    ensures r == Signed(8, FromBE(b[..1]))
  {
    Signed(8, MyisamUint1korr(b))
  }

  function MyisamSint2korr(b: seq<Byte>): (r: int)
    requires |b| >= 2
    ensures r == Signed(16, FromBE(b[..2]))
  {
    Backwards(32, b[..2]);
    Signed(16, Or(b[1], Shl(32, b[0], 8)))
  }

  /** The sign bit of three bytes is not extended. */
  function MyisamSint3korr(b: seq<Byte>): (r: int)
    requires |b| >= 3
    ensures r == FromBE(b[..3])
  {
    Backwards(32, b[..3]);
    ThreeByteRange(b[..3]);
    Signed(32, Or(Or(b[2], Shl(32, b[1], 8)), Shl(32, b[0], 16)))
  }

  function MyisamSint4korr(b: seq<Byte>): (r: int)
    requires |b| >= 4
    ensures r == Signed(32, FromBE(b[..4]))
  {
    Backwards(32, b[..4]);
    Signed(32, Or(Or(Or(b[3], Shl(32, b[2], 8)), Shl(32, b[1], 16)), Shl(32, b[0], 24)))
  }

  lemma CastBE(w: nat, s: seq<Byte>)
    requires 8 * |s| <= w
    ensures Unsigned(w, FromBE(s)) == FromBE(s)
  {
    BigIsReversedLittle(s);
    CastLE(w, Reverse(s));
  }

  lemma ThreeByteRange(s: seq<Byte>)
    requires |s| == 3
    ensures Signed(32, FromBE(s)) == FromBE(s)
  {
    Generic.Powers();
    BoundBE(s);
    SignedRange(32, FromBE(s));
  }

  /** The four low bytes are put together in 32 bits; the top one needs 64. */
  function MiUint5korr(b: seq<Byte>): (r: nat)
    requires |b| >= 5
    ensures r == FromBE(b[..5])
  {
    TopByte(b[..5]);
    assert b[..5][1..] == b[1..][..4];
    Or(MyisamUint4korr(b[1..]), Shl(64, b[0], 32))
  }

  lemma TopByte(s: seq<Byte>)
    requires |s| == 5
    ensures Or(FromBE(s[1..]), Shl(64, s[0], 32)) == FromBE(s)
  {
    OneByte(s[0]);
    OrLE(64, Reverse(s[1..]), [s[0]]);
    BigIsReversedLittle(s[1..]);
    BigIsReversedLittle(s);
  }

  /** Both headers define mi_uint5korr, and they agree. */
  lemma FastMiUint5korrAgrees(p: seq<Byte>)
    requires |p| >= 5
    ensures X86.MiUint5korr(p) == MiUint5korr(p)
  {
  }

  lemma SignOfThreeBytes(s: seq<Byte>)
    requires |s| == 3
    ensures FromBE(s) == Signed(24, FromBE(s)) <==> s[0] < 128
  {
    Generic.Powers();
    BoundBE(s);
    BoundBE(s[1..]);
    DivisionIs(FromBE(s), Pow2(24), 0, FromBE(s));
  }

  /** myisam_sint3korr returns the three-byte two's complement number exactly
      when that is not negative. */
  lemma MyisamSint3korrSign(b: seq<Byte>)
    requires |b| >= 3
    ensures MyisamSint3korr(b) == Signed(24, FromBE(b[..3])) <==> b[0] < 128
  {
    SignOfThreeBytes(b[..3]);
  }

  // ----- my_byteorder.h and big_endian.h -----

  function Int4net(b: seq<Byte>): (r: int)
    requires |b| >= 4
    ensures r == Signed(32, FromBE(b[..4]))
  {
    Backwards(32, b[..4]);
    Signed(32, Or(Or(Or(b[3], Shl(32, b[2], 8)), Shl(32, b[1], 16)), Shl(32, b[0], 24)))
  }

  function Ushortget(m: seq<Byte>): (v: nat)
    requires |m| >= 2
    ensures v == FromBE(m[..2])
  {
    TwoBytes(m);
    CastBE(16, m[..2]);
    Unsigned(16, m[1] + Shl(32, m[0], 8))
  }

  function Shortget(m: seq<Byte>): (v: int)
    requires |m| >= 2
    ensures v == Signed(16, FromBE(m[..2]))
  {
    TwoBytes(m);
    Signed(16, m[1] + Shl(32, m[0], 8))
  }

  lemma TwoBytes(m: seq<Byte>)
    requires |m| >= 2
    ensures FromBE(m[..2]) == m[1] + Shl(32, m[0], 8)
  {
    assert Pow2(8) == 256;
    Generic.Powers();
    assert FromBE(m[..2][1..]) == m[1] by {
      MyisamUint1korrOf(m[..2][1..]);
    }
    OneByte(m[0]);
    ShiftLE(32, [m[0]], 1);
    var high: int := m[0];
    DivisionIs(high * 256, Pow2(16), 0, high * 256);
  }

  lemma MyisamUint1korrOf(s: seq<Byte>)
    requires |s| == 1
    ensures FromBE(s) == s[0]
  {
    assert s[..1] == s;
    var _ := MyisamUint1korr(s);
  }

  method Shortstore(t: array<Byte>, at: nat, a: int)
    requires at + 2 <= t.Length
    modifies t
    ensures t[..] == Stored(old(t[..]), at, ToBE(2, a))
  {
    var temp := Unsigned(32, a);
    LowBytes(2, 4, a);
    ByteAt(2, temp, 0); ByteAt(2, temp, 1);
    t[at + 1] := temp % 256;
    t[at] := Shr(temp, 8) % 256;
  }

  method Longstore(t: array<Byte>, at: nat, a: int)
    requires at + 4 <= t.Length
    modifies t
    ensures t[..] == Stored(old(t[..]), at, ToBE(4, a))
  {
    ByteAt(4, a, 0); ByteAt(4, a, 1); ByteAt(4, a, 2); ByteAt(4, a, 3);
    t[at + 3] := a % 256;
    t[at + 2] := Shr(a, 8) % 256;
    t[at + 1] := Shr(a, 16) % 256;
    t[at] := Shr(a, 24) % 256;
  }

  // ----- what the readers recover of what the stores wrote -----

  /** Reading where bytes were stored finds those bytes. */
  lemma ReadBack(buffer: seq<Byte>, at: nat, bytes: seq<Byte>)
    requires at + |bytes| <= |buffer|
    ensures |Stored(buffer, at, bytes)| == |buffer|
    ensures Stored(buffer, at, bytes)[at..][..|bytes|] == bytes
  {
  }

  /** Reading back n bytes stored high byte first. */
  lemma BigStoredValue(buffer: seq<Byte>, at: nat, n: nat, v: int)
    requires at + n <= |buffer|
    ensures |Stored(buffer, at, ToBE(n, v))| == |buffer|
    ensures FromBE(Stored(buffer, at, ToBE(n, v))[at..][..n]) == v % Pow2(8 * n)
  {
    ReadBack(buffer, at, ToBE(n, v));
    BigRoundTrip(n, v);
  }

  /** int4net undoes longstore on every 32-bit value. */
  lemma NetworkRoundTrip(buffer: seq<Byte>, at: nat, v: int)
    requires at + 4 <= |buffer| && -(Pow2(31) as int) <= v < Pow2(31)
    ensures |Stored(buffer, at, ToBE(4, v))| == |buffer|
    ensures Int4net(Stored(buffer, at, ToBE(4, v))[at..]) == v
  {
    BigStoredValue(buffer, at, 4, v);
    SignedBack(32, v);
  }

  /** shortget undoes shortstore on every signed 16-bit value. */
  lemma ShortRoundTrip(buffer: seq<Byte>, at: nat, v: int)
    requires at + 2 <= |buffer| && -(Pow2(15) as int) <= v < Pow2(15)
    ensures |Stored(buffer, at, ToBE(2, v))| == |buffer|
    ensures Shortget(Stored(buffer, at, ToBE(2, v))[at..]) == v
  {
    BigStoredValue(buffer, at, 2, v);
    SignedBack(16, v);
  }

  /** And ushortget on every unsigned one. */
  lemma UshortRoundTrip(buffer: seq<Byte>, at: nat, v: nat)
    requires at + 2 <= |buffer| && v < Pow2(16)
    ensures |Stored(buffer, at, ToBE(2, v))| == |buffer|
    ensures Ushortget(Stored(buffer, at, ToBE(2, v))[at..]) == v
  {
    BigStoredValue(buffer, at, 2, v);
    DivisionIs(v, Pow2(16), 0, v);
  }

  /** int4net of any four bytes is sint4korr of them reversed. */
  lemma NetworkIsReversedNative(b: seq<Byte>)
    requires |b| == 4
    ensures Int4net(b) == Generic.Sint4korr(Reverse(b)) == X86.Sint4korr(Reverse(b))
  {
    BigIsReversedLittle(b);
    assert b[..4] == b && Reverse(b)[..4] == Reverse(b);
  }

  /** Low byte first: what a reader finds behind a store of n bytes is the value
      modulo 2^(8n), and a signed value in range comes back unchanged. */
  lemma LittleEndianRoundTrip(buffer: seq<Byte>, at: nat, n: nat, v: int)
    requires n > 0 && at + n <= |buffer|
    ensures FromLE(Stored(buffer, at, ToLE(n, v))[at..][..n]) == v % Pow2(8 * n)
    ensures -(Pow2(8 * n - 1) as int) <= v < Pow2(8 * n - 1)
            ==> Signed(8 * n, FromLE(Stored(buffer, at, ToLE(n, v))[at..][..n])) == v
  {
    ReadBack(buffer, at, ToLE(n, v));
    ValueOfBytes(n, v);
    if -(Pow2(8 * n - 1) as int) <= v < Pow2(8 * n - 1) {
      SignedBack(8 * n, v);
    }
  }

  /** In particular sint3korr after int3store, in both forms. */
  lemma Sint3RoundTrip(buffer: seq<Byte>, at: nat, v: int)
    requires at + 3 <= |buffer| && -8388608 <= v < 8388608
    ensures var a := Stored(buffer, at, ToLE(3, v))[at..];
            Generic.Sint3korr(a) == X86.Sint3korr(a) == v
  {
    Generic.Powers();
    LittleEndianRoundTrip(buffer, at, 3, v);
  }

  /** memcmp on stored keys is numeric order of what the fast readers return. */
  lemma FastReadersKeepKeyOrder(p: seq<Byte>, q: seq<Byte>)
    requires |p| >= 8 && |q| >= 8
    ensures LexLess(p[..5], q[..5]) <==> X86.MiUint5korr(p) < X86.MiUint5korr(q)
    ensures LexLess(p[..6], q[..6]) <==> X86.MiUint6korr(p) < X86.MiUint6korr(q)
    ensures LexLess(p[..7], q[..7]) <==> X86.MiUint7korr(p) < X86.MiUint7korr(q)
    ensures LexLess(p[..8], q[..8]) <==> X86.MiUint8korr(p) < X86.MiUint8korr(q)
  {
    ByteOrderIsNumericOrder(p[..5], q[..5]);
    ByteOrderIsNumericOrder(p[..6], q[..6]);
    ByteOrderIsNumericOrder(p[..7], q[..7]);
    ByteOrderIsNumericOrder(p[..8], q[..8]);
  }
}
