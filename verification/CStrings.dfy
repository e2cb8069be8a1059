/** The bounded string routines.  A C string is the bytes before the first NUL. */
module CStrings {
  import opened Bytes

  const NUL: Byte := 0

  function CStr(s: seq<Byte>): (c: seq<Byte>)
    ensures |c| <= |s| && c == s[..|c|] && NUL !in c
    ensures NUL in s ==> |c| < |s| && s[|c|] == NUL
  {
    if s == [] || s[0] == NUL then [] else [s[0]] + CStr(s[1..])
  }

  function Take(s: seq<Byte>, n: nat): seq<Byte> {
    if |s| <= n then s else s[..n]
  }

  // ----- the C library's part -----

  method StrLen(s: array<Byte>) returns (n: nat)
    requires NUL in s[..]
    ensures n == |CStr(s[..])| && n < s.Length
  {
    n := 0;
    while s[n] != NUL
      invariant n <= |CStr(s[..])|
      decreases s.Length - n
    {
      n := n + 1;
    }
  }

  /** strnmov, which is defined elsewhere: copies up to and including the NUL, at
      most n bytes, and returns where the NUL is or the end of what it wrote. */
  method StrNMov(dst: array<Byte>, at: nat, src: seq<Byte>, n: nat) returns (end: nat)
    requires at + n <= dst.Length && NUL in src
    modifies dst
    ensures end == at + |Take(CStr(src), n)|
    ensures dst[..] == Stored(old(dst[..]), at, if |CStr(src)| < n then CStr(src) + [NUL] else CStr(src)[..n])
  {
    ghost var c, before := CStr(src), dst[..];
    var i := 0;
    while i < n
      invariant 0 <= i <= n && i <= |c|
      invariant dst[..] == Stored(before, at, c[..i])
    {
      StoredGrows(before, at, c[..i], src[i]);
      dst[at + i] := src[i];
      if src[i] == NUL {
        assert i == |c| && c[..i] == c;
        return at + i;
      }
      assert c[..i] + [src[i]] == c[..i + 1];
      i := i + 1;
    }
    return at + i;
  }

  /** strncpy of the C library: as strnmov, but the rest of the n bytes is
      filled with NULs. */
  method StrNCpy(dst: array<Byte>, src: seq<Byte>, n: nat)
    requires n <= dst.Length && NUL in src
    modifies dst
    ensures dst[..] == Stored(old(dst[..]), 0, Take(CStr(src), n) + Zeros(n - |Take(CStr(src), n)|))
  {
    ghost var before := dst[..];
    var end := StrNMov(dst, 0, src, n);
    ghost var copied := dst[..];
    forall i | end <= i < n {
      dst[i] := NUL;
    }
    assert dst[..] == copied[..end] + Zeros(n - end) + copied[n..];
    CopiedAndFilled(before, CStr(src), n);
  }

  lemma CopiedAndFilled(before: seq<Byte>, c: seq<Byte>, n: nat)
    requires n <= |before|
    ensures var copied, end := Stored(before, 0, if |c| < n then c + [NUL] else c[..n]), |Take(c, n)|;
            copied[..end] + Zeros(n - end) + copied[n..] == Stored(before, 0, Take(c, n) + Zeros(n - end))
  {
    var copied := Stored(before, 0, if |c| < n then c + [NUL] else c[..n]);
    assert copied[..|Take(c, n)|] == Take(c, n);
    assert copied[n..] == before[n..];
  }

  // ----- the routines -----

  method SafeStrcpy(dst: array<Byte>, dstSize: nat, src: seq<Byte>)
    requires 0 < dstSize <= dst.Length && NUL in src
    modifies dst
    ensures var kept := Take(CStr(src), dstSize - 1);
            && dst[..] == Stored(old(dst[..]), 0, kept + Zeros(dstSize - |kept|))
            && CStr(dst[..]) == kept
  {
    ghost var before := dst[..];
    StrNCpy(dst, src, dstSize);
    Terminated(before, CStr(src), dstSize);
    ghost var copied := dst[..];
    dst[dstSize - 1] := NUL;
    assert dst[..] == copied[dstSize - 1 := NUL];
  }

  /** strncpy and then a NUL in the last place. */
  lemma Terminated(before: seq<Byte>, c: seq<Byte>, n: nat)
    requires 0 < n <= |before| && NUL !in c
    ensures var copied, kept := Take(c, n), Take(c, n - 1);
            && Stored(before, 0, copied + Zeros(n - |copied|))[n - 1 := NUL]
               == Stored(before, 0, kept + Zeros(n - |kept|))
            && CStr(Stored(before, 0, kept + Zeros(n - |kept|))) == kept
  {
    var kept := Take(c, n - 1);
    CStrOf(kept, Stored(before, 0, kept + Zeros(n - |kept|)));
  }

  /** Nothing behind the NUL is touched: no padding. */
  method SafeStrcpyTruncated(dst: array<Byte>, at: nat, dstSize: nat, src: seq<Byte>) returns (truncated: int)
    requires at + dstSize <= dst.Length && NUL in src
    modifies dst
    ensures truncated == if |CStr(src)| >= dstSize then 1 else 0
    ensures dst[..] == if dstSize == 0 then old(dst[..])
                       else Stored(old(dst[..]), at, Take(CStr(src), dstSize - 1) + [NUL])
  {
    if dstSize == 0 {
      return 1;
    }
    var end := StrNMov(dst, at, src, dstSize);
    if end == at + dstSize {
      LastByteCut(old(dst[..]), at, CStr(src), dstSize);
      dst[at + dstSize - 1] := NUL;
      return 1;
    }
    return 0;
  }

  lemma LastByteCut(before: seq<Byte>, at: nat, c: seq<Byte>, n: nat)
    requires 0 < n <= |c| && at + n <= |before|
    ensures Stored(before, at, c[..n])[at + n - 1 := NUL] == Stored(before, at, c[..n - 1] + [NUL])
  {
  }

  /** What the destination holds after src is appended. */
  function Appended(dst: seq<Byte>, src: seq<Byte>, dstSize: nat): seq<Byte>
    requires dstSize > 0
  {
    Take(dst + src, dstSize - 1)
  }

  /** The string in dst may be longer than dstSize; then nothing happens. */
  method SafeStrcat(dst: array<Byte>, dstSize: nat, src: seq<Byte>) returns (truncated: int)
    requires dstSize <= dst.Length && NUL in dst[..] && NUL in src
    modifies dst
    ensures truncated == if |CStr(old(dst[..]))| + |CStr(src)| >= dstSize then 1 else 0
    ensures |CStr(old(dst[..]))| >= dstSize ==> dst[..] == old(dst[..])
    ensures |CStr(old(dst[..]))| < dstSize ==>
              && CStr(dst[..]) == Appended(CStr(old(dst[..])), CStr(src), dstSize)
              && |CStr(dst[..])| < dstSize
    ensures NUL in dst[..]
    ensures forall k | dstSize <= k < dst.Length :: dst[k] == old(dst[k])
  {
    var initLen := StrLen(dst);
    if initLen >= dstSize {
      return 1;
    }
    ghost var before := dst[..];
    truncated := SafeStrcpyTruncated(dst, initLen, dstSize - initLen, src);
    AppendedBytes(before, CStr(src), dstSize);
  }

  /** Copying behind the string that is there appends to it. */
  lemma AppendedBytes(before: seq<Byte>, src: seq<Byte>, dstSize: nat)
    requires NUL in before && NUL !in src && |CStr(before)| < dstSize <= |before|
    ensures var n := |CStr(before)|;
            var after := Stored(before, n, Take(src, dstSize - n - 1) + [NUL]);
            && CStr(after) == Appended(CStr(before), src, dstSize)
            && NUL in after
            && forall k | dstSize <= k < |before| :: after[k] == before[k]
  {
    var n := |CStr(before)|;
    var kept := Take(src, dstSize - n - 1);
    var after := Stored(before, n, kept + [NUL]);
    CopiedBehind(before, n, kept);
    CStrOf(CStr(before) + kept, after);
    assert CStr(before) + kept == Appended(CStr(before), src, dstSize);
  }

  lemma CopiedBehind(before: seq<Byte>, n: nat, kept: seq<Byte>)
    requires n + |kept| < |before|
    ensures var after := Stored(before, n, kept + [NUL]);
            && after[..n + |kept|] == before[..n] + kept && after[n + |kept|] == NUL
            && forall k | n + |kept| < k < |before| :: after[k] == before[k]
  {
  }

  lemma {:induction false} CStrOf(c: seq<Byte>, s: seq<Byte>)
    requires NUL !in c && |c| < |s| && s[..|c|] == c && s[|c|] == NUL
    ensures CStr(s) == c
  {
    if c == [] {
    } else {
      assert s[0] == c[0] && c[0] in c;
      assert forall b | b in c[1..] :: b in c;
      assert s[1..][..|c| - 1] == c[1..];
      CStrOf(c[1..], s[1..]);
    }
  }

  // ----- any number of calls -----

  /** What is in the buffer after appending each of srcs to dst in turn. */
  function AppendAll(dst: seq<Byte>, srcs: seq<seq<Byte>>, dstSize: nat): seq<Byte>
    requires dstSize > 0
  {
    if srcs == [] then dst
    else Appended(AppendAll(dst, srcs[..|srcs| - 1], dstSize), srcs[|srcs| - 1], dstSize)
  }

  function Concat(srcs: seq<seq<Byte>>): seq<Byte> {
    if srcs == [] then [] else Concat(srcs[..|srcs| - 1]) + srcs[|srcs| - 1]
  }

  /** Call i reports truncation. */
  predicate Reports(srcs: seq<seq<Byte>>, i: nat, dstSize: nat)
    requires dstSize > 0 && i < |srcs|
  {
    |AppendAll([], srcs[..i], dstSize)| + |srcs[i]| >= dstSize
  }

  lemma AppendAllGrows(srcs: seq<seq<Byte>>, i: nat, dstSize: nat)
    requires dstSize > 0 && i < |srcs|
    ensures AppendAll([], srcs[..i + 1], dstSize) == Appended(AppendAll([], srcs[..i], dstSize), srcs[i], dstSize)
  {
    assert srcs[..i + 1][..i] == srcs[..i];
  }

  /** From the empty string, any sequence of safe_strcat calls leaves exactly the
      first dst_size - 1 bytes of the concatenation. */
  lemma {:induction false} AppendingKeepsPrefix(srcs: seq<seq<Byte>>, dstSize: nat)
    requires dstSize > 0
    ensures AppendAll([], srcs, dstSize) == Take(Concat(srcs), dstSize - 1)
  {
    if srcs == [] {
    } else {
      var front, last := srcs[..|srcs| - 1], srcs[|srcs| - 1];
      AppendingKeepsPrefix(front, dstSize);
      var all, n := Concat(front), dstSize - 1;
      if |all| > n {
        assert Take(all[..n] + last, n) == all[..n] == (all + last)[..n];
      }
    }
  }

  /** Nothing was lost exactly when no call reported truncation. */
  lemma {:induction false} CompleteIffNothingReported(srcs: seq<seq<Byte>>, dstSize: nat)
    requires dstSize > 0
    ensures AppendAll([], srcs, dstSize) == Concat(srcs)
            <==> forall i: nat | i < |srcs| :: !Reports(srcs, i, dstSize)
  {
    if srcs == [] {
    } else {
      var front, last := srcs[..|srcs| - 1], srcs[|srcs| - 1];
      AppendingKeepsPrefix(srcs, dstSize);
      AppendingKeepsPrefix(front, dstSize);
      CompleteIffNothingReported(front, dstSize);
      assert forall i: nat | i < |front| :: srcs[..i] == front[..i] && srcs[i] == front[i];
      assert forall i: nat | i < |front| :: Reports(srcs, i, dstSize) <==> Reports(front, i, dstSize);
      assert Reports(srcs, |front|, dstSize) <==> |AppendAll([], front, dstSize)| + |last| >= dstSize;
    }
  }

  function CStrs(srcs: seq<seq<Byte>>): seq<seq<Byte>> {
    seq(|srcs|, i requires 0 <= i < |srcs| => CStr(srcs[i]))
  }

  /** One safe_strcat after the other, into an empty string. */
  method AppendInTurn(dst: array<Byte>, dstSize: nat, srcs: seq<seq<Byte>>) returns (reports: seq<int>)
    requires 0 < dstSize <= dst.Length && dst[0] == NUL
    requires forall i | 0 <= i < |srcs| :: NUL in srcs[i]
    modifies dst
    ensures NUL in dst[..dstSize]
    ensures CStr(dst[..]) == Take(Concat(CStrs(srcs)), dstSize - 1)
    ensures |reports| == |srcs|
    ensures forall i | 0 <= i < |srcs| :: reports[i] == if Reports(CStrs(srcs), i, dstSize) then 1 else 0
    ensures CStr(dst[..]) == Concat(CStrs(srcs)) <==> forall i | 0 <= i < |srcs| :: reports[i] == 0
    ensures forall k | dstSize <= k < dst.Length :: dst[k] == old(dst[k])
  {
    ghost var strings := CStrs(srcs);
    reports := [];
    var i := 0;
    while i < |srcs|
      invariant 0 <= i <= |srcs| && |reports| == i
      invariant Holds(dst[..], AppendAll([], strings[..i], dstSize), dstSize)
      invariant Reported(strings, dstSize, reports)
      invariant forall k | dstSize <= k < dst.Length :: dst[k] == old(dst[k])
    {
      AppendAllGrows(strings, i, dstSize);
      var truncated := AppendNext(dst, dstSize, srcs[i], AppendAll([], strings[..i], dstSize));
      ReportedGrows(strings, dstSize, reports, truncated);
      reports := reports + [truncated];
      i := i + 1;
    }
    assert strings[..i] == strings;
    AppendingKeepsPrefix(strings, dstSize);
    CompleteIffAllZero(strings, dstSize, reports);
  }

  /** The buffer has the string c, terminated inside its first dstSize bytes. */
  predicate Holds(buffer: seq<Byte>, c: seq<Byte>, dstSize: nat) {
    dstSize <= |buffer| && NUL in buffer[..dstSize] && CStr(buffer) == c && |c| < dstSize
  }

  method AppendNext(dst: array<Byte>, dstSize: nat, src: seq<Byte>, ghost c: seq<Byte>) returns (truncated: int)
    requires dstSize > 0 && NUL in src && Holds(dst[..], c, dstSize)
    modifies dst
    ensures Holds(dst[..], Appended(c, CStr(src), dstSize), dstSize)
    ensures truncated == if |c| + |CStr(src)| >= dstSize then 1 else 0
    ensures forall k | dstSize <= k < dst.Length :: dst[k] == old(dst[k])
  {
    truncated := SafeStrcat(dst, dstSize, src);
    assert dst[..dstSize][|CStr(dst[..])|] == NUL;
  }

  /** reports is what the first calls returned. */
  predicate Reported(strings: seq<seq<Byte>>, dstSize: nat, reports: seq<int>)
    requires dstSize > 0
  {
    && |reports| <= |strings|
    && forall i | 0 <= i < |reports| :: reports[i] == if Reports(strings, i, dstSize) then 1 else 0
  }

  lemma ReportedGrows(strings: seq<seq<Byte>>, dstSize: nat, reports: seq<int>, next: int)
    requires dstSize > 0 && Reported(strings, dstSize, reports) && |reports| < |strings|
    requires next == if Reports(strings, |reports|, dstSize) then 1 else 0
    ensures Reported(strings, dstSize, reports + [next])
  {
  }

  lemma CompleteIffAllZero(strings: seq<seq<Byte>>, dstSize: nat, reports: seq<int>)
    requires dstSize > 0 && Reported(strings, dstSize, reports) && |reports| == |strings|
    ensures AppendAll([], strings, dstSize) == Concat(strings) <==> forall i | 0 <= i < |strings| :: reports[i] == 0
  {
    CompleteIffNothingReported(strings, dstSize);
  }

  // ----- the two copies -----

  /** safe_strcpy and safe_strcpy_truncated leave equal C strings, though not
      equal buffers. */
  lemma CopiesAgree(before: seq<Byte>, src: seq<Byte>, dstSize: nat)
    requires 0 < dstSize <= |before| && NUL in src
    ensures var kept := Take(CStr(src), dstSize - 1);
            CStr(Stored(before, 0, kept + Zeros(dstSize - |kept|))) == CStr(Stored(before, 0, kept + [NUL])) == kept
  {
    var kept := Take(CStr(src), dstSize - 1);
    CStrOf(kept, Stored(before, 0, kept + Zeros(dstSize - |kept|)));
    CStrOf(kept, Stored(before, 0, kept + [NUL]));
  }
  /** Whatever was kept of the source: the NULs that safe_strcpy_truncated is
      documented to fill the destination with, and safe_strcpy writes, are there
      exactly when they were there before. */
  lemma PaddedIff(before: seq<Byte>, kept: seq<Byte>, dstSize: nat)
    requires |kept| < dstSize <= |before|
    ensures Stored(before, 0, kept + [NUL]) == Stored(before, 0, kept + Zeros(dstSize - |kept|))
            <==> forall i | |kept| < i < dstSize :: before[i] == NUL
  {
    PaddingWasThere(before, kept, dstSize);
    AlreadyPadded(before, kept, dstSize);
  }

  lemma PaddingWasThere(before: seq<Byte>, kept: seq<Byte>, n: nat)
    requires |kept| < n <= |before|
    ensures Stored(before, 0, kept + [NUL]) == Stored(before, 0, kept + Zeros(n - |kept|))
            ==> forall i | |kept| < i < n :: before[i] == NUL
  {
    forall i | |kept| < i < n
      ensures Stored(before, 0, kept + [NUL])[i] == before[i]
      ensures Stored(before, 0, kept + Zeros(n - |kept|))[i] == NUL
    {
    }
  }

  lemma AlreadyPadded(before: seq<Byte>, kept: seq<Byte>, n: nat)
    requires |kept| < n <= |before|
    ensures (forall i | |kept| < i < n :: before[i] == NUL)
            ==> Stored(before, 0, kept + [NUL]) == Stored(before, 0, kept + Zeros(n - |kept|))
  {
    if forall i | |kept| < i < n :: before[i] == NUL {
      assert before[|kept| + 1..] == Zeros(n - |kept| - 1) + before[n..];
      assert Zeros(n - |kept|) == [NUL] + Zeros(n - |kept| - 1);
    }
  }

  /** Copying the empty string over "abc": the code leaves "bc" behind the NUL. */
  lemma NotPadded()
    ensures var before: seq<Byte>, src: seq<Byte> := [97, 98, 99], [NUL];
            var kept := Take(CStr(src), 2);
            && Stored(before, 0, kept + [NUL]) == [NUL, 98, 99]
            && Stored(before, 0, kept + Zeros(3 - |kept|)) == [NUL, NUL, NUL]
  {
    assert CStr([NUL]) == [];
  }
}
