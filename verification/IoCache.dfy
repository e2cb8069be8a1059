/** The inline fast paths of IO_CACHE.  Pointers are positions in one memory
    block.  The functions the fast paths fall back on are defined elsewhere:
    CacheRead, CacheWrite and Flush stand for any implementation that keeps the
    contracts given here, and choose freely how much they buffer. */
module IoCache {
  import opened Wrappers
  import opened Bytes

  datatype CacheType = ReadCache | WriteCache

  const EOF: int := -2147483648

  datatype ReadCall = Get | Read(count: nat)
  datatype WriteCall = WriteByte(b: Byte) | Write(data: seq<Byte>)

  function Wanted(call: ReadCall): nat {
    match call
    case Get => 1
    case Read(count) => count
  }

  /** How many bytes a list of read calls asks for. */
  function Total(calls: seq<ReadCall>): nat {
    if calls == [] then 0 else Total(calls[..|calls| - 1]) + Wanted(calls[|calls| - 1])
  }

  function DataOf(call: WriteCall): seq<Byte> {
    match call
    case WriteByte(b) => [b]
    case Write(data) => data
  }

  /** Everything a list of write calls asks to write. */
  function Data(calls: seq<WriteCall>): seq<Byte> {
    if calls == [] then [] else Data(calls[..|calls| - 1]) + DataOf(calls[|calls| - 1])
  }

  lemma DataGrows(calls: seq<WriteCall>, i: nat)
    requires i < |calls|
    ensures Data(calls[..i + 1]) == Data(calls[..i]) + DataOf(calls[i])
  {
    assert calls[..i + 1][..i] == calls[..i];
  }

  /** What a few calls write is a prefix of what all of them do. */
  lemma {:induction false} DataPrefix(calls: seq<WriteCall>, i: nat)
    requires i <= |calls|
    ensures Data(calls[..i]) <= Data(calls)
  {
    if i == |calls| {
      assert calls[..i] == calls;
    } else {
      var front := calls[..|calls| - 1];
      DataPrefix(front, i);
      assert front[..i] == calls[..i];
    }
  }

  /** What call i adds to everything before it, when it succeeds or stops inside. */
  lemma CallAdds(before: seq<Byte>, calls: seq<WriteCall>, i: nat, status: int, after: seq<Byte>)
    requires i < |calls|
    requires var written := before + Data(calls[..i]);
             if status == 0 then after == written + DataOf(calls[i])
             else written <= after <= written + DataOf(calls[i])
    ensures if status == 0 then after == before + Data(calls[..i + 1]) else before <= after <= before + Data(calls)
    ensures |Data(calls[..i])| + |DataOf(calls[i])| == |Data(calls[..i + 1])| <= |Data(calls)|
  {
    DataGrows(calls, i);
    DataPrefix(calls, i + 1);
    Regroup(before, Data(calls[..i]), DataOf(calls[i]));
    if status != 0 {
      Longer(before, Data(calls[..i + 1]), Data(calls));
    }
  }

  lemma Regroup(a: seq<Byte>, b: seq<Byte>, c: seq<Byte>)
    ensures a + b + c == a + (b + c)
  {
  }

  lemma Longer(before: seq<Byte>, part: seq<Byte>, all: seq<Byte>)
    requires part <= all
    ensures before + part <= before + all
  {
    assert before + all == before + part + all[|part|..];
  }

  class Cache {
    const mem: array<Byte>
    var kind: CacheType
    var posInFile: nat
    var readPos: nat
    var readEnd: nat
    var requestPos: nat
    var writeBuffer: nat
    var writePos: nat
    var writeEnd: nat

    /** The file behind the cache: all of it, or what has been flushed so far. */
    var file: seq<Byte>

    /** Attempts to write to the file are numbered; accepts says which succeed. */
    const accepts: nat -> bool
    var attempts: nat

    constructor ForReading(size: nat, file: seq<Byte>)
      requires size > 0
      ensures Reading() && fresh(mem) && mem.Length == size
      ensures Tell() == 0 && Pending() == file
    {
      mem := new Byte[size](_ => 0);
      kind, posInFile := ReadCache, 0;
      readPos, readEnd, requestPos := 0, 0, 0;
      writeBuffer, writePos, writeEnd := 0, 0, 0;
      this.file := file;
      accepts, attempts := _ => true, 0;
    }

    constructor ForWriting(size: nat, accepts: nat -> bool)
      requires size > 0
      ensures Writing() && fresh(mem) && mem.Length == size
      ensures Written() == [] && requestPos == writeBuffer && BytesInCache() == size
      ensures this.accepts == accepts && attempts == 0
    {
      mem := new Byte[size](_ => 0);
      kind, posInFile := WriteCache, 0;
      readPos, readEnd, requestPos := 0, 0, 0;
      writeBuffer, writePos, writeEnd := 0, 0, size;
      file := [];
      this.accepts, attempts := accepts, 0;
    }

    // ----- positions -----

    function Tell(): int
      reads this
    {
      if kind == WriteCache then posInFile + (writePos - requestPos)
      else posInFile + (readPos - requestPos)
    }

    function WriteTell(): int
      reads this
    {
      posInFile + (writePos - writeBuffer)
    }

    function BytesInCache(): int
      reads this
    {
      if kind == WriteCache then writeEnd - writePos else readEnd - readPos
    }

    // ----- reading -----

    /** The valid part of the buffer is the part of the file at pos_in_file. */
    ghost predicate Reading()
      reads this, mem
    {
      && kind == ReadCache && mem.Length > 0
      && requestPos <= readPos <= readEnd <= mem.Length
      && posInFile + (readEnd - requestPos) <= |file|
      && mem[requestPos..readEnd] == file[posInFile..posInFile + (readEnd - requestPos)]
    }

    /** What has not been delivered yet. */
    ghost function Pending(): seq<Byte>
      requires Reading()
      reads this, mem
    {
      file[Tell()..]
    }

    /** _my_b_read: delivers what there is, up to count bytes, and refills the
        buffer with some of the bytes before and behind the new position. */
    method CacheRead(buffer: array<Byte>, count: nat) returns (status: int)
      requires Reading() && buffer != mem && count <= buffer.Length
      modifies this`posInFile, this`readPos, this`readEnd, this`requestPos, mem, buffer
      ensures Reading()
      ensures status == if count <= |old(Pending())| then 0 else 1
      ensures var n := Min(count, |old(Pending())|);
              && buffer[..] == old(Pending())[..n] + old(buffer[n..])
              && Pending() == old(Pending())[n..]
              && Tell() == old(Tell()) + n
      ensures count == 0 && Pending() != [] ==> readPos < readEnd
    {
      var t := Tell();
      var n := Min(count, |file| - t);
      Deliver(buffer, t, n);
      Refill(t + n, n, count == 0);
      status := if n == count then 0 else 1;
    }

    /** Moves the cache to position t of the file: some of the behind bytes before
        it stay in the buffer, and some bytes from it on are loaded, at least one
        of them on request. */
    method Refill(t: nat, behind: nat, atLeastOne: bool)
      requires Reading() && behind <= t <= |file|
      modifies this`posInFile, this`readPos, this`readEnd, this`requestPos, mem
      ensures Reading() && Tell() == t
      ensures atLeastOne && t < |file| ==> readPos < readEnd
    {
      var least: nat := if atLeastOne && t < |file| then 1 else 0;
      var kept: nat :| kept <= behind && kept + least <= mem.Length;
      var ahead: nat :| least <= ahead && kept + ahead <= mem.Length && t + ahead <= |file|;
      Load(t - kept, kept + ahead);
      posInFile, requestPos, readPos, readEnd := t - kept, 0, kept, kept + ahead;
    }

    method Deliver(buffer: array<Byte>, from: nat, n: nat)
      requires n <= buffer.Length && from + n <= |file|
      modifies buffer
      ensures buffer[..] == file[from..][..n] + old(buffer[n..])
    {
      forall i | 0 <= i < n {
        buffer[i] := file[from + i];
      }
    }

    method Load(from: nat, n: nat)
      requires n <= mem.Length && from + n <= |file|
      modifies mem
      ensures mem[..n] == file[from..from + n]
    {
      forall i | 0 <= i < n {
        mem[i] := file[from + i];
      }
    }

    /** _my_b_get */
    method CacheGet() returns (c: int)
      requires Reading()
      modifies this`posInFile, this`readPos, this`readEnd, this`requestPos, mem
      ensures Reading()
      ensures old(Pending()) == [] ==> c == EOF && Pending() == [] && Tell() == old(Tell())
      ensures old(Pending()) != [] ==>
                c == old(Pending())[0] && Pending() == old(Pending())[1..] && Tell() == old(Tell()) + 1
    {
      var one := new Byte[1](_ => 0);
      var status := CacheRead(one, 1);
      if status != 0 {
        return EOF;
      }
      assert one[..][0] == one[0];
      return one[0];
    }

    /** my_b_read */
    method MyBRead(buffer: array<Byte>, count: nat) returns (status: int)
      requires Reading() && buffer != mem && count <= buffer.Length
      modifies this`posInFile, this`readPos, this`readEnd, this`requestPos, mem, buffer
      ensures Reading()
      ensures status == if count <= |old(Pending())| then 0 else 1
      ensures var n := Min(count, |old(Pending())|);
              && buffer[..] == old(Pending())[..n] + old(buffer[n..])
              && Pending() == old(Pending())[n..]
              && Tell() == old(Tell()) + n
      ensures count <= old(BytesInCache()) ==> Tell() + BytesInCache() == old(Tell() + BytesInCache())
    {
      if readPos + count <= readEnd {
        BufferedIsPending();
        forall i | 0 <= i < count {
          buffer[i] := mem[readPos + i];
        }
        readPos := readPos + count;
        return 0;
      }
      status := CacheRead(buffer, count);
    }

    /** The bytes in the buffer are the next ones of the stream. */
    lemma BufferedIsPending()
      requires Reading()
      ensures readEnd - readPos <= |Pending()|
      ensures forall i | 0 <= i < readEnd - readPos :: mem[readPos + i] == Pending()[i]
    {
      forall i | 0 <= i < readEnd - readPos
        ensures mem[readPos + i] == Pending()[i]
      {
        assert mem[readPos + i] == mem[requestPos..readEnd][readPos - requestPos + i];
      }
    }

    /** my_b_get */
    method MyBGet() returns (c: int)
      requires Reading()
      modifies this`posInFile, this`readPos, this`readEnd, this`requestPos, mem
      ensures Reading()
      ensures old(Pending()) == [] ==> c == EOF && Pending() == [] && Tell() == old(Tell())
      ensures old(Pending()) != [] ==>
                c == old(Pending())[0] && Pending() == old(Pending())[1..] && Tell() == old(Tell()) + 1
    {
      if readPos != readEnd {
        BufferedIsPending();
        assert mem[readPos + 0] == Pending()[0];
        readPos := readPos + 1;
        return mem[readPos - 1];
      }
      c := CacheGet();
    }

    /** my_b_fill: skips what is left in the buffer, so that nothing is lost
        exactly when nothing is left; then it is 0 only at the end of the file. */
    method MyBFill() returns (available: int)
      requires Reading()
      modifies this`posInFile, this`readPos, this`readEnd, this`requestPos, mem
      ensures Reading()
      ensures Pending() == old(Pending())[old(BytesInCache())..]
      ensures Pending() == old(Pending()) <==> old(BytesInCache()) == 0
      ensures available == BytesInCache() && (available == 0 <==> Pending() == [])
    {
      var nothing := new Byte[0];
      BufferedIsPending();
      readPos := readEnd;
      var status := CacheRead(nothing, 0);
      BufferedIsPending();
      available := if status != 0 then 0 else readEnd - readPos;
    }

    /** Any sequence of my_b_get and my_b_read calls of any sizes: what has been
        delivered, followed by what is pending, is the original stream, and
        my_b_tell has advanced by exactly the bytes delivered, which are as many
        as the calls ask for or the stream has. */
    method AnyReads(calls: seq<ReadCall>) returns (delivered: seq<Byte>)
      requires Reading()
      modifies this`posInFile, this`readPos, this`readEnd, this`requestPos, mem
      ensures Reading()
      ensures delivered + Pending() == old(Pending())
      ensures Tell() == old(Tell()) + |delivered|
      ensures |delivered| == Min(Total(calls), |old(Pending())|)
    {
      delivered := [];
      var i := 0;
      assert calls[..0] == [];
      while i < |calls|
        invariant 0 <= i <= |calls|
        invariant Reading()
        invariant delivered + Pending() == old(Pending())
        invariant Tell() == old(Tell()) + |delivered|
        invariant |delivered| == Min(Total(calls[..i]), |old(Pending())|)
      {
        assert calls[..i + 1][..i] == calls[..i];
        ghost var pending := Pending();
        var got := OneRead(calls[i]);
        Regroup(delivered, got, Pending());
        delivered := delivered + got;
        i := i + 1;
      }
      assert calls[..|calls|] == calls;
    }

    method OneRead(call: ReadCall) returns (got: seq<Byte>)
      requires Reading()
      modifies this`posInFile, this`readPos, this`readEnd, this`requestPos, mem
      ensures Reading()
      ensures got + Pending() == old(Pending())
      ensures |got| == Min(Wanted(call), |old(Pending())|)
      ensures Tell() == old(Tell()) + |got|
    {
      ghost var pending := Pending();
      match call {
        case Get =>
          var c := MyBGet();
          got := if c == EOF then [] else [c];
        case Read(count) =>
          var buffer := new Byte[count](_ => 0);
          var before := Tell();
          var status := MyBRead(buffer, count);
          got := buffer[..Tell() - before];
          assert got == pending[..|got|];
      }
    }

    // ----- writing -----

    /** Between write_buffer and write_pos is what has not reached the file. */
    ghost predicate Writing()
      reads this, mem
    {
      && kind == WriteCache
      && writeBuffer <= writePos <= writeEnd <= mem.Length && writeBuffer < mem.Length
      && posInFile == |file|
    }

    /** All attempts since the one numbered from have succeeded. */
    ghost predicate AcceptedSince(from: nat)
      reads this
    {
      forall n | from <= n < attempts :: accepts(n)
    }

    /** Everything written so far, flushed or not. */
    ghost function Written(): seq<Byte>
      requires Writing()
      reads this, mem
    {
      file + mem[writeBuffer..writePos]
    }

    /** my_b_flush_io_cache: one attempt to write; if it fails, it leaves the cache
        as it is; if it does not, there is room in the buffer. */
    method Flush() returns (status: int)
      requires Writing()
      modifies this`posInFile, this`writePos, this`writeEnd, this`file, this`attempts
      ensures Writing() && Written() == old(Written())
      ensures attempts == old(attempts) + 1 && (status == 0 <==> accepts(old(attempts)))
      ensures status == 0 ==> writePos == writeBuffer && writePos < writeEnd && file == Written()
      ensures status != 0 ==> posInFile == old(posInFile) && writePos == old(writePos) && writeEnd == old(writeEnd)
    {
      attempts := attempts + 1;
      if !accepts(attempts - 1) {
        return 1;
      }
      file := file + mem[writeBuffer..writePos];
      posInFile := posInFile + (writePos - writeBuffer);
      writePos := writeBuffer;
      var end: nat :| writeBuffer < end <= mem.Length;
      writeEnd := end;
      return 0;
    }

    /** memcpy to write_pos */
    method Append(data: seq<Byte>)
      requires Writing() && |data| <= writeEnd - writePos
      modifies this`writePos, mem
      ensures Writing() && Written() == old(Written()) + data
      ensures writePos == old(writePos) + |data|
    {
      forall i | 0 <= i < |data| {
        mem[writePos + i] := data[i];
      }
      writePos := writePos + |data|;
      assert mem[writeBuffer..writePos] == old(mem[writeBuffer..writePos]) + data;
    }

    /** _my_b_write: fills the buffer, flushes it, and puts the rest into the file
        or the buffer.  It fails when one of its one or two attempts to write does;
        then a part of the data is in the buffer or the file. */
    method CacheWrite(data: seq<Byte>) returns (status: int)
      requires Writing()
      modifies this`posInFile, this`writePos, this`writeEnd, this`file, this`attempts, mem
      ensures Writing()
      ensures status == 0 ==> Written() == old(Written()) + data
      ensures status != 0 ==> old(Written()) <= Written() <= old(Written()) + data
      ensures status == 0 <==> AcceptedSince(old(attempts))
      ensures old(attempts) < attempts <= old(attempts) + 2
    {
      var first := Min(|data|, writeEnd - writePos);
      Append(data[..first]);
      status := Flush();
      assert data[..first] + data[first..] == data;
      if status == 0 {
        status := WriteRest(data[first..]);
      }
    }

    /** With an empty buffer: any part of the data directly, the rest buffered. */
    method WriteRest(data: seq<Byte>) returns (status: int)
      requires Writing() && writePos == writeBuffer
      modifies this`posInFile, this`writePos, this`file, this`attempts, mem
      ensures Writing()
      ensures Written() == old(Written()) + if status == 0 then data else []
      ensures status == 0 <==> AcceptedSince(old(attempts))
      ensures old(attempts) <= attempts <= old(attempts) + 1
    {
      var direct: nat :| direct <= |data| && |data| - direct <= writeEnd - writePos by {
        assert |data| - |data| <= writeEnd - writePos;
      }
      if direct > 0 {
        attempts := attempts + 1;
        if !accepts(attempts - 1) {
          return 1;
        }
        file := file + data[..direct];
        posInFile := posInFile + direct;
      }
      Append(data[direct..]);
      assert data[..direct] + data[direct..] == data;
      return 0;
    }

    /** my_b_write */
    method MyBWrite(data: seq<Byte>) returns (status: int)
      requires Writing()
      modifies this`posInFile, this`writePos, this`writeEnd, this`file, this`attempts, mem
      ensures Writing()
      ensures status == 0 ==> Written() == old(Written()) + data
      ensures status != 0 ==> old(Written()) <= Written() <= old(Written()) + data
      ensures status == 0 <==> AcceptedSince(old(attempts))
      ensures old(attempts) <= attempts <= old(attempts) + 2
      ensures attempts == old(attempts) <==> |data| <= old(BytesInCache())
      ensures attempts == old(attempts) ==>
                status == 0 && file == old(file) && Tell() + BytesInCache() == old(Tell() + BytesInCache())
    {
      if writePos + |data| <= writeEnd {
        if data != [] {
          Append(data);
        }
        return 0;
      }
      status := CacheWrite(data);
    }

    /** my_b_write_byte */
    method MyBWriteByte(b: Byte) returns (status: int)
      requires Writing()
      modifies this`posInFile, this`writePos, this`writeEnd, this`file, this`attempts, mem
      ensures Writing()
      ensures status == 0 ==> Written() == old(Written()) + [b]
      ensures status != 0 ==> Written() == old(Written())
      ensures status == 0 <==> AcceptedSince(old(attempts))
      ensures attempts == old(attempts) + if old(BytesInCache()) > 0 then 0 else 1
      ensures attempts == old(attempts) ==>
                status == 0 && file == old(file) && Tell() + BytesInCache() == old(Tell() + BytesInCache())
    {
      if writePos >= writeEnd {
        var failed := Flush();
        if failed != 0 {
          return 1;
        }
      }
      Append([b]);
      return 0;
    }

    /** Any mix of my_b_write and my_b_write_byte calls, up to the first one that
        fails: flushed bytes followed by buffered bytes are the concatenation of
        everything written, or a prefix of it, so that it does not matter how the
        data was cut up.  All calls succeed exactly when every attempt to write to
        the file does, and there is none exactly when everything fits. */
    method AnyWrites(calls: seq<WriteCall>) returns (status: int)
      requires Writing()
      modifies this`posInFile, this`writePos, this`writeEnd, this`file, this`attempts, mem
      ensures Writing()
      ensures status == 0 ==> Written() == old(Written()) + Data(calls)
      ensures status != 0 ==> old(Written()) <= Written() <= old(Written()) + Data(calls)
      ensures status == 0 <==> AcceptedSince(old(attempts))
      ensures old(attempts) <= attempts
      ensures attempts == old(attempts) <==> |Data(calls)| <= old(BytesInCache())
      ensures attempts == old(attempts) ==>
                status == 0 && file == old(file) && Tell() + BytesInCache() == old(Tell() + BytesInCache())
    {
      ghost var before := Written();
      var i := 0;
      assert calls[..0] == [];
      while i < |calls|
        invariant 0 <= i <= |calls|
        invariant Writing()
        invariant Written() == before + Data(calls[..i])
        invariant AcceptedSince(old(attempts)) && old(attempts) <= attempts
        invariant attempts == old(attempts) <==> |Data(calls[..i])| <= old(BytesInCache())
        invariant attempts == old(attempts) ==>
                    file == old(file) && writeEnd == old(writeEnd) && writePos == old(writePos) + |Data(calls[..i])|
      {
        status := OneWrite(calls[i]);
        CallAdds(before, calls, i, status, Written());
        if status != 0 {
          return;
        }
        i := i + 1;
      }
      assert calls[..|calls|] == calls;
      return 0;
    }

    method OneWrite(call: WriteCall) returns (status: int)
      requires Writing()
      modifies this`posInFile, this`writePos, this`writeEnd, this`file, this`attempts, mem
      ensures Writing()
      ensures status == 0 ==> Written() == old(Written()) + DataOf(call)
      ensures status != 0 ==> old(Written()) <= Written() <= old(Written()) + DataOf(call)
      ensures status == 0 <==> AcceptedSince(old(attempts))
      ensures old(attempts) <= attempts
      ensures attempts == old(attempts) <==> |DataOf(call)| <= old(BytesInCache())
      ensures attempts == old(attempts) ==>
                && status == 0 && file == old(file)
                && writeEnd == old(writeEnd) && writePos == old(writePos) + |DataOf(call)|
    {
      match call {
        case WriteByte(b) => status := MyBWriteByte(b);
        case Write(data) => status := MyBWrite(data);
      }
    }

    /** Writing byte by byte does what one my_b_write of the block does. */
    method WriteBytewise(data: seq<Byte>) returns (status: int)
      requires Writing()
      modifies this`posInFile, this`writePos, this`writeEnd, this`file, this`attempts, mem
      ensures Writing()
      ensures status == 0 ==> Written() == old(Written()) + data
      ensures status != 0 ==> old(Written()) <= Written() <= old(Written()) + data
      ensures status == 0 <==> AcceptedSince(old(attempts))
      ensures old(attempts) <= attempts
      ensures attempts == old(attempts) <==> |data| <= old(BytesInCache())
      ensures attempts == old(attempts) ==>
                status == 0 && file == old(file) && Tell() + BytesInCache() == old(Tell() + BytesInCache())
    {
      BytewiseIsBlock(data);
      status := AnyWrites(Bytewise(data));
    }

    /** In a write cache my_b_write_tell is the number of bytes written, and
        my_b_tell is the same number exactly when request_pos is write_buffer. */
    lemma TellCountsWrittenBytes()
      requires Writing()
      ensures WriteTell() == |Written()|
      ensures Tell() == WriteTell() <==> requestPos == writeBuffer
    {
    }
  }

  function Bytewise(data: seq<Byte>): seq<WriteCall> {
    seq(|data|, i requires 0 <= i < |data| => WriteByte(data[i]))
  }

  /** Writing byte by byte asks for the same as writing the block. */
  lemma {:induction false} BytewiseIsBlock(data: seq<Byte>)
    ensures Data(Bytewise(data)) == data == Data([Write(data)])
  {
    BlockIsData(data);
    if data == [] {
    } else {
      BytewiseSnoc(data);
      BytewiseIsBlock(data[..|data| - 1]);
    }
  }

  lemma BlockIsData(data: seq<Byte>)
    ensures Data([Write(data)]) == data
  {
    assert [Write(data)][..0] == [];
  }

  lemma BytewiseSnoc(data: seq<Byte>)
    requires data != []
    ensures Data(Bytewise(data)) == Data(Bytewise(data[..|data| - 1])) + [data[|data| - 1]]
    ensures data[..|data| - 1] + [data[|data| - 1]] == data
  {
    assert Bytewise(data)[..|data| - 1] == Bytewise(data[..|data| - 1]);
  }
}
