/** The UUID printer. */
module Uuid {
  import opened Bits
  import opened Bytes

  const UUID_SIZE := 16
  const BARE_LENGTH := 32
  const SEPARATORS := 4

  /** _dig_vec_lower, which is defined elsewhere: the digits of bases up to 36. */
  function Digit(d: nat): char
    requires d < 36
  {
    if d < 10 then '0' + d as char else 'a' + (d - 10) as char
  }

  /** A dash follows the bytes with these indices. */
  predicate DashAfter(i: int) {
    i == 3 || i == 5 || i == 7 || i == 9
  }

  function DigitsOf(b: Byte): string {
    [Digit(b / 16), Digit(b % 16)]
  }

  /** How long the text of the first n bytes is. */
  function Length(n: nat, dashes: bool): nat {
    2 * n + if !dashes || n <= 3 then 0 else if n <= 5 then 1 else if n <= 7 then 2 else if n <= 9 then 3 else 4
  }

  function Text(guid: seq<Byte>, dashes: bool): (text: string)
    ensures |text| == Length(|guid|, dashes)
  {
    if guid == [] then ""
    else
      var i := |guid| - 1;
      Text(guid[..i], dashes) + DigitsOf(guid[i]) + if dashes && DashAfter(i) then "-" else ""
  }

  /** The mask after i shifts; its set bits are 3, 5, 7 and 9. */
  function Mask(i: nat): nat {
    if i == 0 then 8 + 32 + 128 + 512 else Mask(i - 1) / 2
  }

  lemma MaskValues()
    ensures Mask(1) == 340 && Mask(2) == 170 && Mask(3) == 85 && Mask(4) == 42 && Mask(5) == 21
    ensures Mask(6) == 10 && Mask(7) == 5 && Mask(8) == 2 && Mask(9) == 1 && Mask(10) == 0
  {
    assert Mask(3) == 85;
    assert Mask(6) == 10;
    assert Mask(9) == 1;
  }

  lemma {:induction false} MaskEmpty(i: nat)
    requires i >= 10
    ensures Mask(i) == 0
  {
    MaskValues();
    if i > 10 {
      MaskEmpty(i - 1);
    }
  }

  lemma MaskBits(i: nat)
    ensures And(Mask(i), 1) != 0 <==> DashAfter(i)
    ensures Mask(i + 1) == Mask(i) / 2
  {
    LowestBit(Mask(i));
    MaskValues();
    if i >= 10 {
      MaskEmpty(i);
    }
  }

  function MaskAt(i: nat, dashes: bool): nat {
    if dashes then Mask(i) else 0
  }

  lemma MaskRound(i: nat, dashes: bool)
    ensures And(MaskAt(i, dashes), 1) != 0 <==> dashes && DashAfter(i)
    ensures MaskAt(i, dashes) / 2 == MaskAt(i + 1, dashes)
  {
    MaskBits(i);
  }

  lemma LowestBit(x: nat)
    ensures And(x, 1) == x % 2
  {
    if x > 0 {
      assert And(x / 2, 0) == 0 by { AndZero(x / 2); }
    }
  }

  lemma {:induction false} AndZero(x: nat)
    ensures And(x, 0) == 0
  {
    if x == 0 {
    } else {
      AndZero(x / 2);
    }
  }

  /** A buffer with the two digits of a byte put at p, and a dash if one follows. */
  function WithByte(s: string, p: nat, b: Byte, dash: bool): string
    requires p + (if dash then 3 else 2) <= |s|
  {
    var bare := s[p := DigitsOf(b)[0]][p + 1 := DigitsOf(b)[1]];
    if dash then bare[p + 2 := '-'] else bare
  }

  /** What one round of the loop adds. */
  lemma RoundAdds(before: string, at: nat, guid: seq<Byte>, i: nat, dashes: bool)
    requires i < |guid| && at + Length(i + 1, dashes) <= |before|
    ensures Length(i + 1, dashes) == Length(i, dashes) + if dashes && DashAfter(i) then 3 else 2
    ensures WithByte(Stored(before, at, Text(guid[..i], dashes)), at + Length(i, dashes), guid[i], dashes && DashAfter(i))
            == Stored(before, at, Text(guid[..i + 1], dashes))
  {
    var text, d := Text(guid[..i], dashes), DigitsOf(guid[i]);
    assert guid[..i + 1][..i] == guid[..i];
    StoredGrows(before, at, text, d[0]);
    StoredGrows(before, at, text + [d[0]], d[1]);
    assert text + [d[0]] + [d[1]] == text + d;
    if dashes && DashAfter(i) {
      StoredGrows(before, at, text + d, '-');
      assert text + d + ['-'] == Text(guid[..i + 1], dashes);
    } else {
      assert text + d == Text(guid[..i + 1], dashes);
    }
  }

  lemma RoundFits(i: nat, dashes: bool)
    requires i < UUID_SIZE
    ensures Length(i + 1, dashes) <= Length(UUID_SIZE, dashes) == BARE_LENGTH + if dashes then SEPARATORS else 0
  {
  }

  /** One round: the two digits of byte i, and a dash if one follows. */
  method PutByte(guid: seq<Byte>, i: nat, s: array<char>, p: nat, dash: bool, ghost before: string, ghost at: nat, ghost dashes: bool)
    returns (next: nat)
    requires i < |guid| && at + Length(i + 1, dashes) <= s.Length == |before|
    requires p == at + Length(i, dashes) && dash == (dashes && DashAfter(i))
    requires s[..] == Stored(before, at, Text(guid[..i], dashes))
    modifies s
    ensures next == at + Length(i + 1, dashes)
    ensures s[..] == Stored(before, at, Text(guid[..i + 1], dashes))
  {
    RoundAdds(before, at, guid, i, dashes);
    ghost var start := s[..];
    s[p] := Digit(guid[i] / 16);
    s[p + 1] := Digit(guid[i] % 16);
    next := p + 2;
    if dash {
      s[next] := '-';
      next := next + 1;
    }
    assert s[..] == WithByte(start, p, guid[i], dash);
  }

  /** Prints guid into s from position at on, and writes nothing else; there is
      no terminating NUL. */
  method MyUuid2str(guid: seq<Byte>, s: array<char>, at: nat, withSeparators: bool) returns (end: nat)
    requires |guid| == UUID_SIZE
    requires at + BARE_LENGTH + (if withSeparators then SEPARATORS else 0) <= s.Length
    modifies s
    ensures |Text(guid, withSeparators)| == BARE_LENGTH + if withSeparators then SEPARATORS else 0
    ensures s[..] == Stored(old(s[..]), at, Text(guid, withSeparators))
    ensures end == at + |Text(guid, withSeparators)|
  {
    ghost var before := s[..];
    var mask: nat := if withSeparators then 8 + 32 + 128 + 512 else 0;
    var i := 0;
    end := at;
    assert guid[..0] == [];
    while i < UUID_SIZE
      invariant 0 <= i <= UUID_SIZE
      invariant mask == MaskAt(i, withSeparators)
      invariant end == at + Length(i, withSeparators) && end <= s.Length
      invariant s[..] == Stored(before, at, Text(guid[..i], withSeparators))
    {
      RoundFits(i, withSeparators);
      var dash := And(mask, 1) != 0;
      var shifted := mask / 2;
      assert dash == (withSeparators && DashAfter(i)) && shifted == MaskAt(i + 1, withSeparators) by {
        MaskRound(i, withSeparators);
      }
      end := PutByte(guid, i, s, end, dash, before, at, withSeparators);
      i, mask := i + 1, shifted;
    }
    assert guid[..UUID_SIZE] == guid;
  }

  // ----- the printed form -----

  /** Dashes stand exactly where the 8-4-4-4-12 form has them. */
  lemma {:induction false} DashPositions(guid: seq<Byte>, dashes: bool, p: nat)
    requires |guid| <= UUID_SIZE && p < |Text(guid, dashes)|
    ensures Text(guid, dashes)[p] == '-' <==> dashes && (p == 8 || p == 13 || p == 18 || p == 23)
  {
    var i := |guid| - 1;
    if p < |Text(guid[..i], dashes)| {
      DashPositions(guid[..i], dashes, p);
    } else {
      DigitsAreNoDashes(guid[i]);
    }
  }

  lemma DigitsAreNoDashes(b: Byte)
    ensures DigitsOf(b)[0] != '-' && DigitsOf(b)[1] != '-'
  {
  }

  // ----- reading it back -----

  function Undashed(text: string): string {
    if text == "" then ""
    else Undashed(text[..|text| - 1]) + if text[|text| - 1] == '-' then "" else [text[|text| - 1]]
  }

  function DigitValue(c: char): int {
    if '0' <= c <= '9' then c as int - '0' as int
    else if 'a' <= c <= 'f' then c as int - 'a' as int + 10
    else 0
  }

  function Pairs(text: string): seq<Byte> {
    if |text| < 2 then []
    else
      var n := |text|;
      Pairs(text[..n - 2]) + [16 * DigitValue(text[n - 2]) + DigitValue(text[n - 1])]
  }

  /** Drops the dashes and reads two digits at a time. */
  function Parse(text: string): seq<Byte> {
    Pairs(Undashed(text))
  }

  lemma UndashedSnoc(text: string, c: char)
    ensures Undashed(text + [c]) == Undashed(text) + if c == '-' then "" else [c]
  {
    assert (text + [c])[..|text|] == text;
  }

  lemma DigitRoundTrip(d: nat)
    requires d < 16
    ensures DigitValue(Digit(d)) == d
  {
  }

  lemma UndashedRound(front: string, b: Byte)
    ensures Undashed(front + DigitsOf(b)) == Undashed(front) + DigitsOf(b)
    ensures Undashed(front + DigitsOf(b) + "-") == Undashed(front) + DigitsOf(b)
  {
    var digits := DigitsOf(b);
    DigitsAreNoDashes(b);
    UndashedSnoc(front, digits[0]);
    UndashedSnoc(front + [digits[0]], digits[1]);
    assert front + [digits[0]] + [digits[1]] == front + digits;
    UndashedSnoc(front + digits, '-');
  }

  /** Without its dashes the text is the bare text. */
  lemma {:induction false} UndashedText(guid: seq<Byte>, dashes: bool)
    ensures Undashed(Text(guid, dashes)) == Text(guid, false)
  {
    if guid == [] {
    } else {
      var i := |guid| - 1;
      var front, digits := Text(guid[..i], dashes), DigitsOf(guid[i]);
      UndashedText(guid[..i], dashes);
      UndashedRound(front, guid[i]);
      assert front + digits + "" == front + digits;
      assert Text(guid[..i], false) + digits + "" == Text(guid[..i], false) + digits;
    }
  }

  lemma {:induction false} PairsOfBareText(guid: seq<Byte>)
    ensures Pairs(Text(guid, false)) == guid
  {
    if guid == [] {
    } else {
      var i := |guid| - 1;
      var front, digits := Text(guid[..i], false), DigitsOf(guid[i]);
      PairsOfBareText(guid[..i]);
      DigitRoundTrip(guid[i] / 16);
      DigitRoundTrip(guid[i] % 16);
      assert Text(guid, false) == front + digits;
      assert (front + digits)[..|front|] == front;
      assert guid == guid[..i] + [guid[i]];
    }
  }

  /** The parser recovers all bytes, with and without separators. */
  lemma ParseRecovers(guid: seq<Byte>, dashes: bool)
    ensures Parse(Text(guid, dashes)) == guid
  {
    UndashedText(guid, dashes);
    PairsOfBareText(guid);
  }

  /** Two UUIDs that print alike are equal. */
  lemma PrintingIsInjective(a: seq<Byte>, b: seq<Byte>, dashes: bool)
    requires Text(a, dashes) == Text(b, dashes)
    ensures a == b
  {
    ParseRecovers(a, dashes);
    ParseRecovers(b, dashes);
  }
}
