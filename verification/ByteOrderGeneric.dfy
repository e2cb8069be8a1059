/** The portable readers and stores, low byte first, and what each of them
    decodes or writes. */
module ByteOrderGeneric {
  import opened Bits
  import opened Bytes

  // ----- readers -----

  function Uint2korr(a: seq<Byte>): (r: nat)
    requires |a| >= 2
    ensures r == FromLE(a[..2])
  {
    FirstByte(a); OrByte(32, a, 1); CastLE(16, a[..2]);
    Unsigned(16, Or(a[0], Shl(32, a[1], 8)))
  }

  function Uint3korr(a: seq<Byte>): (r: nat)
    requires |a| >= 3
    ensures r == FromLE(a[..3])
  {
    FirstByte(a); OrByte(32, a, 1); OrByte(32, a, 2);
    Or(Or(a[0], Shl(32, a[1], 8)), Shl(32, a[2], 16))
  }

  function Uint4korr(a: seq<Byte>): (r: nat)
    requires |a| >= 4
    ensures r == FromLE(a[..4])
  {
    FirstByte(a); OrByte(32, a, 1); OrByte(32, a, 2); OrByte(32, a, 3);
    Or(Or(Or(a[0], Shl(32, a[1], 8)), Shl(32, a[2], 16)), Shl(32, a[3], 24))
  }

  function Uint5korr(a: seq<Byte>): (r: nat)
    requires |a| >= 5
    ensures r == FromLE(a[..5])
  {
    FirstByte(a); OrByte(32, a, 1); OrByte(32, a, 2); OrByte(32, a, 3); OrByte(64, a, 4);
    Or(Or(Or(Or(a[0], Shl(32, a[1], 8)), Shl(32, a[2], 16)), Shl(32, a[3], 24)), Shl(64, a[4], 32))
  }

  function Uint6korr(a: seq<Byte>): (r: nat)
    requires |a| >= 6
    ensures r == FromLE(a[..6])
  {
    FirstByte(a); OrByte(32, a, 1); OrByte(32, a, 2); OrByte(32, a, 3); OrByte(64, a, 4); OrByte(64, a, 5);
    Or(Or(Or(Or(Or(a[0], Shl(32, a[1], 8)), Shl(32, a[2], 16)), Shl(32, a[3], 24)), Shl(64, a[4], 32)), Shl(64, a[5], 40))
  }

  function Uint8korr(a: seq<Byte>): (r: nat)
    requires |a| >= 8
    ensures r == FromLE(a[..8])
  {
    var high := a[4..];
    OrLE(64, a[..4], high[..4]);
    assert a[..4] + high[..4] == a[..8];
    Or(Uint4korr(a), Shl(64, Uint4korr(high), 32))
  }

  function Sint2korr(a: seq<Byte>): (r: int)
    requires |a| >= 2
    ensures r == Signed(16, FromLE(a[..2]))
  {
    FirstByte(a); OrByte(32, a, 1);
    Signed(16, Or(a[0], Shl(32, a[1], 8)))
  }

  /** Three bytes, sign-extended by hand. */
  function Sint3korr(a: seq<Byte>): (r: int)
    requires |a| >= 3
    ensures r == Signed(24, FromLE(a[..3]))
  {
    HighBitOfByte(a[2]);
    ThreeBytesFromTheTop(a[..3]);
    Signed(32,
           if And(a[2], 128) != 0 then
             Or(Or(Or(Shl(32, 255, 24), Shl(32, a[2], 16)), Shl(32, a[1], 8)), a[0])
           else
             Or(Or(Shl(32, a[2], 16), Shl(32, a[1], 8)), a[0]))
  }

  function Sint4korr(a: seq<Byte>): (r: int)
    requires |a| >= 4
    ensures r == Signed(32, FromLE(a[..4]))
  {
    FirstByte(a); OrByte(32, a, 1); OrByte(32, a, 2); OrByte(32, a, 3);
    Signed(32, Or(Or(Or(a[0], Shl(32, a[1], 8)), Shl(32, a[2], 16)), Shl(32, a[3], 24)))
  }

  function Sint8korr(a: seq<Byte>): (r: int)
    requires |a| >= 8
    ensures r == Signed(64, FromLE(a[..8]))
  {
    Signed(64, Uint8korr(a))
  }

  lemma HighBitOfByte(b: Byte)
    ensures And(b, 128) != 0 <==> b >= 128
  {
    assert Pow2(7) == 128 && Pow2(8) == 256;
    AndTopBit(b, 7);
  }

  /** High bytes first in the expression; the fourth byte is all ones. */
  lemma ThreeBytesFromTheTop(s: seq<Byte>)
    requires |s| == 3
    ensures Or(Or(Shl(32, s[2], 16), Shl(32, s[1], 8)), s[0]) == FromLE(s)
    ensures Or(Or(Or(Shl(32, 255, 24), Shl(32, s[2], 16)), Shl(32, s[1], 8)), s[0]) == FromLE(s + [255])
    ensures s[2] < 128 ==> Signed(32, FromLE(s)) == Signed(24, FromLE(s))
    ensures s[2] >= 128 ==> Signed(32, FromLE(s + [255])) == Signed(24, FromLE(s))
  {
    FromTheTop(s[0], s[1], [s[2]]);
    FromTheTop(s[0], s[1], [s[2], 255]);
    assert [s[0], s[1]] + [s[2]] == s && [s[0], s[1]] + [s[2], 255] == s + [255];
    OneByte(s[0]);
    OneByte(s[2]);
    TopTwoBytes(s[2]);
    SignExtends(s);
  }

  lemma TopTwoBytes(b: Byte)
    ensures Or(Shl(32, 255, 24), Shl(32, b, 16)) == Shl(32, FromLE([b, 255]), 16)
  {
    var padded := Zeros(2) + [b];
    OneByte(b);
    OneByte(255);
    ShiftLE(32, [b], 2);
    ShiftLE(32, [b, 255], 2);
    OrLE(32, padded, [255]);
    assert |padded| == 3;
    assert padded + [255] == Zeros(2) + [b, 255];
  }

  /** Two more bytes below an upper part that is already in place. */
  lemma FromTheTop(b0: Byte, b1: Byte, high: seq<Byte>)
    requires |high| <= 2
    ensures Or(Or(Shl(32, FromLE(high), 16), Shl(32, b1, 8)), FromLE([b0])) == FromLE([b0, b1] + high)
  {
    OneByte(b1);
    ShiftLE(32, [b1], 1);
    OrLE(32, Zeros(1) + [b1], high);
    ShiftLE(32, [b1] + high, 1);
    assert Zeros(1) + [b1] + high == Zeros(1) + ([b1] + high);
    OrLE(32, [b0], [b1] + high);
    assert [b0] + ([b1] + high) == [b0, b1] + high;
  }

  lemma Powers()
    ensures Pow2(16) == 65536 && Pow2(23) == 8388608 && Pow2(24) == 16777216
    ensures Pow2(31) == 2147483648 && Pow2(32) == 4294967296
  {
    assert Pow2(7) == 128 && Pow2(8) == 256;
    PowSum(8, 8);
    PowSum(16, 7);
    PowSum(16, 8);
    PowSum(24, 7);
    PowSum(24, 8);
  }

  lemma SignExtends(s: seq<Byte>)
    requires |s| == 3
    ensures s[2] < 128 ==> Signed(32, FromLE(s)) == Signed(24, FromLE(s))
    ensures s[2] >= 128 ==> Signed(32, FromLE(s + [255])) == Signed(24, FromLE(s))
  {
    Powers();
    ConcatLE(s[..2], [s[2]]);
    assert s == s[..2] + [s[2]];
    ConcatLE(s, [255]);
    OneByte(s[2]);
    OneByte(255);
    BoundLE(s[..2]);
    BoundLE(s);
    SignExtendsValue(FromLE(s));
  }

  lemma SignExtendsValue(v: nat)
    requires v < 16777216
    ensures v < 8388608 ==> Signed(32, v) == Signed(24, v)
    ensures v >= 8388608 ==> Signed(32, v + 255 * 16777216) == Signed(24, v)
  {
    Powers();
  }

  // ----- stores -----

  method Int2store(t: array<Byte>, at: nat, a: int)
    requires at + 2 <= t.Length
    modifies t
    ensures t[..] == Stored(old(t[..]), at, ToLE(2, a))
  {
    var temp := Unsigned(32, a);
    LowBytes(2, 4, a);
    ByteAt(2, temp, 0);
    ByteAt(2, temp, 1);
    t[at] := temp % 256;
    t[at + 1] := Shr(temp, 8) % 256;
  }

  method Int3store(t: array<Byte>, at: nat, a: int)
    requires at + 3 <= t.Length
    modifies t
    ensures t[..] == Stored(old(t[..]), at, ToLE(3, a))
  {
    ByteAt(3, a, 0); ByteAt(3, a, 1); ByteAt(3, a, 2);
    t[at] := a % 256;
    t[at + 1] := Shr(a, 8) % 256;
    t[at + 2] := Shr(a, 16) % 256;
  }

  method Int4store(t: array<Byte>, at: nat, a: int)
    requires at + 4 <= t.Length
    modifies t
    ensures t[..] == Stored(old(t[..]), at, ToLE(4, a))
  {
    ByteAt(4, a, 0); ByteAt(4, a, 1); ByteAt(4, a, 2); ByteAt(4, a, 3);
    t[at] := a % 256;
    t[at + 1] := Shr(a, 8) % 256;
    t[at + 2] := Shr(a, 16) % 256;
    t[at + 3] := Shr(a, 24) % 256;
  }

  lemma FiveBytes(a: int)
    ensures ToLE(5, a) == [a % 256, Shr(a, 8) % 256, Shr(a, 16) % 256, Shr(a, 24) % 256, Shr(a, 32) % 256]
  {
    ByteAt(5, a, 0); ByteAt(5, a, 1); ByteAt(5, a, 2); ByteAt(5, a, 3); ByteAt(5, a, 4);
  }

  method Int5store(t: array<Byte>, at: nat, a: int)
    requires at + 5 <= t.Length
    modifies t
    ensures t[..] == Stored(old(t[..]), at, ToLE(5, a))
  {
    FiveBytes(a);
    t[at] := a % 256;
    t[at + 1] := Shr(a, 8) % 256;
    t[at + 2] := Shr(a, 16) % 256;
    t[at + 3] := Shr(a, 24) % 256;
    t[at + 4] := Shr(a, 32) % 256;
  }

  lemma SixBytes(a: int)
    ensures ToLE(6, a) == [a % 256, Shr(a, 8) % 256, Shr(a, 16) % 256, Shr(a, 24) % 256, Shr(a, 32) % 256, Shr(a, 40) % 256]
  {
    ByteAt(6, a, 0); ByteAt(6, a, 1); ByteAt(6, a, 2); ByteAt(6, a, 3); ByteAt(6, a, 4); ByteAt(6, a, 5);
  }

  method Int6store(t: array<Byte>, at: nat, a: int)
    requires at + 6 <= t.Length
    modifies t
    ensures t[..] == Stored(old(t[..]), at, ToLE(6, a))
  {
    SixBytes(a);
    t[at] := a % 256;
    t[at + 1] := Shr(a, 8) % 256;
    t[at + 2] := Shr(a, 16) % 256;
    t[at + 3] := Shr(a, 24) % 256;
    t[at + 4] := Shr(a, 32) % 256;
    t[at + 5] := Shr(a, 40) % 256;
  }

  method Int8store(t: array<Byte>, at: nat, a: int)
    requires at + 8 <= t.Length
    modifies t
    ensures t[..] == Stored(old(t[..]), at, ToLE(8, a))
  {
    var low, high := Unsigned(32, a), Unsigned(32, Shr(a, 32));
    LowBytes(4, 4, a);
    LowBytes(4, 4, Shr(a, 32));
    ConcatToLE(4, 4, a);
    StoredTwice(t[..], at, ToLE(4, a), ToLE(4, Shr(a, 32)));
    Int4store(t, at, low);
    Int4store(t, at + 4, high);
  }
}
