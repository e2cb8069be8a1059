/** The x86-64 readers and stores: wide little-endian loads and stores, and
    bswapq for the high-byte-first readers. */
module ByteOrderX86 {
  import opened Bits
  import opened Bytes
  import Generic = ByteOrderGeneric

  // ----- the machine -----

  /** A wide load: the processor is little-endian. */
  function Load(n: nat, a: seq<Byte>): nat
    requires |a| >= n
  {
    FromLE(a[..n])
  }

  /** A wide store, in one go. */
  method Store(t: array<Byte>, at: nat, n: nat, v: int)
    requires at + n <= t.Length
    modifies t
    ensures t[..] == Stored(old(t[..]), at, ToLE(n, v))
  {
    var bytes := ToLE(n, v);
    forall i | 0 <= i < n {
      t[at + i] := bytes[i];
    }
  }

  /** bswapq reverses the eight bytes of a register. */
  function Bswap(v: nat): nat {
    FromLE(Reverse(ToLE(8, v)))
  }

  // ----- readers, low byte first -----

  function Uint2korr(a: seq<Byte>): (r: nat)
    requires |a| >= 2
    ensures r == FromLE(a[..2])
  {
    CastLE(16, a[..2]);
    Unsigned(16, Load(2, a))
  }

  function Uint3korr(a: seq<Byte>): (r: nat)
    requires |a| >= 3
    ensures r == FromLE(a[..3])
  {
    FirstByte(a); OrByte(32, a, 1); OrByte(32, a, 2);
    Or(Or(a[0], Shl(32, a[1], 8)), Shl(32, a[2], 16))
  }

  function Uint4korr(a: seq<Byte>): (r: nat)
    requires |a| >= 4
    ensures r == FromLE(a[..4])
  {
    CastLE(32, a[..4]);
    Unsigned(32, Load(4, a))
  }

  function Uint5korr(p: seq<Byte>): (r: nat)
    requires |p| >= 5
    ensures r == FromLE(p[..5])
  {
    OrByte(64, p, 4);
    Or(Load(4, p), Shl(64, p[4], 32))
  }

  function Uint6korr(p: seq<Byte>): (r: nat)
    requires |p| >= 6
    ensures r == FromLE(p[..6])
  {
    LoadBehind(p, 4, 2);
    Or(Load(4, p), Shl(64, Load(2, p[4..]), 32))
  }

  function Uint8korr(a: seq<Byte>): (r: nat)
    requires |a| >= 8
    ensures r == FromLE(a[..8])
  {
    CastLE(64, a[..8]);
    Unsigned(64, Load(8, a))
  }

  function Sint2korr(a: seq<Byte>): (r: int)
    requires |a| >= 2
    ensures r == Generic.Sint2korr(a)
  {
    Signed(16, Load(2, a))
  }

  /** Written with shifts here, too. */
  function Sint3korr(a: seq<Byte>): (r: int)
    requires |a| >= 3
    ensures r == Signed(24, FromLE(a[..3]))
  {
    Generic.Sint3korr(a)
  }

  function Sint4korr(a: seq<Byte>): (r: int)
    requires |a| >= 4
    ensures r == Generic.Sint4korr(a)
  {
    Signed(32, Load(4, a))
  }

  function Sint8korr(a: seq<Byte>): (r: int)
    requires |a| >= 8
    ensures r == Generic.Sint8korr(a)
  {
    Signed(64, Load(8, a))
  }

  /** The x86-64 readers and the portable ones agree at every width. */
  lemma FormsAgree(a: seq<Byte>)
    ensures |a| >= 2 ==> Uint2korr(a) == Generic.Uint2korr(a) && Sint2korr(a) == Generic.Sint2korr(a)
    ensures |a| >= 3 ==> Uint3korr(a) == Generic.Uint3korr(a) && Sint3korr(a) == Generic.Sint3korr(a)
    ensures |a| >= 4 ==> Uint4korr(a) == Generic.Uint4korr(a) && Sint4korr(a) == Generic.Sint4korr(a)
    ensures |a| >= 5 ==> Uint5korr(a) == Generic.Uint5korr(a)
    ensures |a| >= 6 ==> Uint6korr(a) == Generic.Uint6korr(a)
    ensures |a| >= 8 ==> Uint8korr(a) == Generic.Uint8korr(a) && Sint8korr(a) == Generic.Sint8korr(a)
  {
  }

  /** Two loads, one behind the other. */
  lemma LoadBehind(p: seq<Byte>, n: nat, m: nat)
    requires n + m <= |p| && 8 * (n + m) <= 64
    ensures Or(Load(n, p), Shl(64, Load(m, p[n..]), 8 * n)) == Load(n + m, p)
  {
    OrLE(64, p[..n], p[n..][..m]);
    assert p[..n] + p[n..][..m] == p[..n + m];
  }

  // ----- readers, high byte first -----

  lemma SwapOfBytes(s: seq<Byte>)
    requires |s| == 8
    ensures Bswap(FromLE(s)) == FromBE(s)
  {
    BytesOfValue(s);
    BigIsReversedLittle(s);
  }

  /** Zeros below a number do not show when it is read high byte first from the
      bytes above them. */
  lemma ZerosBelow(z: nat, s: seq<Byte>)
    ensures FromBE(Zeros(z) + s) == FromBE(s)
  {
    ReverseConcat(Zeros(z), s);
    BigIsReversedLittle(Zeros(z) + s);
    BigIsReversedLittle(s);
    ConcatLE(Reverse(s), Reverse(Zeros(z)));
    assert Reverse(Zeros(z)) == Zeros(z);
    ZerosLE(z);
  }

  /** Shifting the loaded bytes to the top and swapping reads them backwards. */
  lemma SwapReadsBackwards(s: seq<Byte>, z: nat)
    requires z + |s| == 8
    ensures Bswap(Shl(64, FromLE(s), 8 * z)) == FromBE(s)
  {
    var padded := Zeros(z) + s;
    ShiftLE(64, s, z);
    assert |padded| == 8;
    SwapOfBytes(padded);
    ZerosBelow(z, s);
  }

  function MiUint5korr(p: seq<Byte>): (r: nat)
    requires |p| >= 5
    ensures r == FromBE(p[..5])
  {
    OrByte(64, p, 4);
    SwapReadsBackwards(p[..5], 3);
    Bswap(Shl(64, Or(Load(4, p), Shl(64, p[4], 32)), 24))
  }

  function MiUint6korr(p: seq<Byte>): (r: nat)
    requires |p| >= 6
    ensures r == FromBE(p[..6])
  {
    LoadBehind(p, 4, 2);
    SwapReadsBackwards(p[..6], 2);
    Bswap(Shl(64, Or(Load(4, p), Shl(64, Load(2, p[4..]), 32)), 16))
  }

  function MiUint7korr(p: seq<Byte>): (r: nat)
    requires |p| >= 7
    ensures r == FromBE(p[..7])
  {
    LoadBehind(p, 4, 2);
    OrByte(64, p, 6);
    SwapReadsBackwards(p[..7], 1);
    Bswap(Shl(64, Or(Or(Load(4, p), Shl(64, Load(2, p[4..]), 32)), Shl(64, p[6], 48)), 8))
  }

  function MiUint8korr(p: seq<Byte>): (r: nat)
    requires |p| >= 8
    ensures r == FromBE(p[..8])
  {
    SwapOfBytes(p[..8]);
    Bswap(Load(8, p))
  }

  // ----- stores -----

  method Int2store(t: array<Byte>, at: nat, a: int)
    requires at + 2 <= t.Length
    modifies t
    ensures t[..] == Stored(old(t[..]), at, ToLE(2, a))
  {
    LowBytes(2, 2, a);
    Store(t, at, 2, Unsigned(16, a));
  }

  method Int3store(t: array<Byte>, at: nat, a: int)
    requires at + 3 <= t.Length
    modifies t
    ensures t[..] == Stored(old(t[..]), at, ToLE(3, a))
  {
    ByteAt(3, a, 0); ByteAt(3, a, 1); ByteAt(3, a, 2);
    LowBytes(3, 4, a);
    ByteAt(3, Unsigned(32, a), 1);
    t[at] := a % 256;
    t[at + 1] := Shr(Unsigned(32, a), 8) % 256;
    t[at + 2] := Shr(a, 16) % 256;
  }

  method Int4store(t: array<Byte>, at: nat, a: int)
    requires at + 4 <= t.Length
    modifies t
    ensures t[..] == Stored(old(t[..]), at, ToLE(4, a))
  {
    LowBytes(4, 4, a);
    Store(t, at, 4, Unsigned(32, a));
  }

  method Int5store(t: array<Byte>, at: nat, a: int)
    requires at + 5 <= t.Length
    modifies t
    ensures t[..] == Stored(old(t[..]), at, ToLE(5, a))
  {
    LowBytes(4, 4, a);
    ConcatToLE(4, 1, a);
    ByteAt(1, Shr(a, 32), 0);
    StoredGrows(t[..], at, ToLE(4, a), Shr(a, 32) % 256);
    assert ToLE(5, a) == ToLE(4, a) + [Shr(a, 32) % 256];
    Store(t, at, 4, Unsigned(32, a));
    t[at + 4] := Shr(a, 32) % 256;
  }

  method Int6store(t: array<Byte>, at: nat, a: int)
    requires at + 6 <= t.Length
    modifies t
    ensures t[..] == Stored(old(t[..]), at, ToLE(6, a))
  {
    LowBytes(4, 4, a);
    LowBytes(2, 2, Shr(a, 32));
    ConcatToLE(4, 2, a);
    StoredTwice(t[..], at, ToLE(4, a), ToLE(2, Shr(a, 32)));
    Store(t, at, 4, Unsigned(32, a));
    Store(t, at + 4, 2, Unsigned(16, Shr(a, 32)));
  }

  method Int8store(t: array<Byte>, at: nat, a: int)
    requires at + 8 <= t.Length
    modifies t
    ensures t[..] == Stored(old(t[..]), at, ToLE(8, a))
  {
    LowBytes(8, 8, a);
    Store(t, at, 8, Unsigned(64, a));
  }
}
