/** Reading a stored member through a buffer: bin/custom_zipfile.py, class ZipExtFile. */
module ZipExtFile {
  import opened Bits
  import opened Wrappers
  import opened ZipRecords
  import opened ZipArchive

  // The largest piece that is asked for at once: 1 << 31 - 1 is 1 << 30.
  const MAX_N := 0x4000_0000
  const MIN_READ_SIZE := 4096
  const MAX_SEEK_READ := 0x100_0000
  const MAX_PEEK := 512

  /** The bytes of `part` are those of s from position p on. */
  ghost predicate PartOf(s: seq<byte>, p: int, part: seq<byte>) {
    0 <= p && p + |part| <= |s| && forall i :: 0 <= i < |part| ==> part[i] == s[p + i]
  }

  lemma PartJoin(s: seq<byte>, p: int, a: seq<byte>, b: seq<byte>)
    requires PartOf(s, p, a) && PartOf(s, p + |a|, b)
    ensures PartOf(s, p, a + b)
  {
    forall i | 0 <= i < |a + b| ensures (a + b)[i] == s[p + i] {
      assert i >= |a| ==> (a + b)[i] == b[i - |a|] == s[p + |a| + (i - |a|)];
    }
  }

  lemma PartSlice(s: seq<byte>, p: int, part: seq<byte>, from: int, to: int)
    requires PartOf(s, p, part) && 0 <= from <= to <= |part|
    ensures PartOf(s, p + from, part[from..to])
  {
    forall i | 0 <= i < to - from ensures part[from..to][i] == s[p + from + i] {
      assert part[from..to][i] == part[from + i] == s[p + (from + i)];
    }
  }

  /** Two names for the same part. */
  lemma PartIsSlice(s: seq<byte>, p: int, part: seq<byte>)
    requires PartOf(s, p, part)
    ensures part == s[p..p + |part|]
  {
  }

  /** Taking the checksum of the next bytes takes it on. */
  lemma ChecksumStep(crc32: Crc32, s: seq<byte>, done: nat, next: seq<byte>)
    requires PartOf(s, done, next)
    ensures crc32(next, crc32(s[..done], 0)) == crc32(s[..done + |next|], 0)
  {
    PartIsSlice(s, done, next);
    assert s[..done + |next|] == s[..done] + next;
    assert Pieces(s[..done], next, 0);
  }

  /** Where seek goes: never before the beginning, nor behind the end that the directory entry gives. */
  function Target(size: nat, position: int, delta: int, whence: int): (t: int)
    requires 0 <= whence <= 2
    ensures 0 <= t <= size
  {
    var t := delta + if whence == 0 then 0 else if whence == 1 then position else size;
    if t > size then size else if t < 0 then 0 else t
  }

  datatype Op = Read(n: int) | Read1(n: int) | Peek(n: int) | Seek(delta: int, whence: int) | Tell

  datatype Out = Data(bytes: seq<byte>) | At(position: int) | Invalid

  /** What a plain cursor over the content does: it knows nothing of buffers, chunks or checksums. */
  ghost predicate CursorStep(content: seq<byte>, size: nat, from: int, op: Op, out: Out, to: int) {
    match op
    case Read(n) =>
      && out.Data? && PartOf(content, from, out.bytes)
      && to == from + |out.bytes| && to == (if n < 0 || from + n > |content| then |content| else from + n)
    case Read1(n) =>
      && out.Data? && PartOf(content, from, out.bytes) && to == from + |out.bytes|
      && (n >= 0 ==> |out.bytes| <= n) && (n != 0 && from < |content| ==> out.bytes != [])
    case Peek(n) =>
      && out.Data? && PartOf(content, from, out.bytes) && to == from && |out.bytes| <= MAX_PEEK
      && (|out.bytes| >= n || |out.bytes| == MAX_PEEK || from + |out.bytes| == |content|)
    case Seek(delta, whence) =>
      if 0 <= whence <= 2 then out == At(to) && to == Min(Target(size, from, delta, whence), |content|)
      else out == Invalid && to == from
    case Tell => out == At(to) && to == from
  }

  class ExtFile {
    const file: seq<byte>
    const start: nat
    const info: ZipInfo
    const crc32: Crc32
    /** What there is to read. */
    ghost const content: seq<byte>
    var filePos: nat
    var compressLeft: nat
    var left: nat
    var readbuffer: seq<byte>
    var offset: nat
    var eof: bool
    var runningCrc: nat

    /** Both sizes and the end of the file limit what there is to read. */
    ghost predicate Source() {
      && start <= |file| && PartOf(file, start, content) && |content| <= info.compressSize && |content| <= info.fileSize
      && (|content| == |file| - start || |content| == info.compressSize || |content| == info.fileSize)
    }

    /** Reading up to the end never meets the end of the file. */
    ghost predicate Complete() {
      (|content| == info.compressSize || |content| == info.fileSize) && (start < |file| || info.compressSize == 0)
    }

    /** The exception, if any, that reading up to the end comes to. */
    ghost function Fault(): Option<ZipError> {
      if !Complete() then Some(EndOfFile) else if crc32(content, 0) != info.crc then Some(BadZipFile) else None
    }

    /** Reading in one go comes to the same. */
    lemma FaultOfRead()
      requires Source() && content == Stored(file, start, info)
      ensures ReadStored(file, start, info, crc32) == if Fault().Some? then Err(Fault().value) else Ok(content)
    {
    }

    /** How many bytes of the member were taken from the file so far. */
    function Consumed(): int
      reads this`left
    {
      info.fileSize - left
    }

    function Position(): int
      reads this`left, this`readbuffer, this`offset
    {
      info.fileSize - left - |readbuffer| + offset
    }

    /** The buffer holds the last bytes that were taken. */
    ghost predicate Buffered()
      reads this`left, this`readbuffer, this`offset
    {
      offset <= |readbuffer| && PartOf(content, Consumed() - |readbuffer|, readbuffer)
    }

    /** The checksum is that of all bytes taken; at the end there are no more. */
    ghost predicate Tracking()
      reads this`left, this`runningCrc, this`eof, this`filePos, this`compressLeft
    {
      && 0 <= Consumed() <= |content|
      && runningCrc == crc32(content[..Consumed()], 0)
      && (eof ==> Complete() && Consumed() == |content|)
      && (!eof ==> filePos == start + Consumed() && compressLeft == info.compressSize - Consumed()
                   && (left > 0 || info.fileSize == 0))
    }

    ghost predicate Valid()
      reads this
    {
      Source() && Tracking() && Buffered()
    }

    constructor (file: seq<byte>, start: nat, info: ZipInfo, crc32: Crc32)
      requires start <= |file|
      ensures Valid() && Position() == 0 && !eof
      ensures this.file == file && this.start == start && this.info == info && this.crc32 == crc32
      ensures content == Stored(file, start, info)
    {
      this.file, this.start, this.info, this.crc32 := file, start, info, crc32;
      content := Stored(file, start, info);
      filePos, compressLeft, left := start, info.compressSize, info.fileSize;
      readbuffer, offset, eof, runningCrc := [], 0, false, crc32([], 0);
    }

    /** _read2: the next bytes of the file, at least MIN_READ_SIZE of them if the member has as many. */
    method ReadRaw(want: int) returns (r: Result<seq<byte>, ZipError>)
      requires filePos <= |file|
      modifies this`filePos, this`compressLeft
      ensures r.Ok? ==> filePos == old(filePos) + |r.value| && compressLeft == old(compressLeft) - |r.value|
                        && PartOf(file, old(filePos), r.value)
                        && (r.value == [] <==> old(compressLeft) == 0)
      ensures r.Err? ==> r.error == EndOfFile && old(filePos) == |file| && old(compressLeft) > 0
                         && filePos == old(filePos) && compressLeft == old(compressLeft)
    {
      if compressLeft <= 0 {
        return Ok([]);
      }
      var n := if want > MIN_READ_SIZE then want else MIN_READ_SIZE;
      n := Min(n, compressLeft);
      var data := file[filePos..Min(filePos + n, |file|)];
      compressLeft := compressLeft - |data|;
      filePos := filePos + |data|;
      if data == [] {
        return Err(EndOfFile);
      }
      return Ok(data);
    }

    /** _update_crc */
    method UpdateCrc(data: seq<byte>) returns (r: Result<(), ZipError>)
      modifies this`runningCrc
      ensures runningCrc == crc32(data, old(runningCrc))
      ensures r == if eof && runningCrc != info.crc then Err(BadZipFile) else Ok(())
    {
      runningCrc := crc32(data, runningCrc);
      if eof && runningCrc != info.crc {
        return Err(BadZipFile);
      }
      return Ok(());
    }

    /** The file ends before the member does. */
    lemma FileEnds(done: nat)
      requires Source() && start + done == |file|
      requires done < info.compressSize && (done < info.fileSize || done == 0)
      ensures done == |content| && Fault() == Some(EndOfFile)
    {
    }

    /** At the end of the sizes one knows whether the checksum is right. */
    lemma MemberEnds(done: nat, k: nat)
      requires Source() && done <= info.fileSize && (k > 0 || done == info.compressSize)
      requires done + k <= info.compressSize && start + done + k <= |file|
      requires done + k == info.compressSize || done + k >= info.fileSize
      ensures |content| == Min(done + k, info.fileSize)
      ensures Fault() == if crc32(content, 0) == info.crc then None else Some(BadZipFile)
    {
    }

    /** Taking the next bytes of the file takes the member and its checksum on, perhaps to the end. */
    lemma Next(done: nat, raw: seq<byte>, data: seq<byte>)
      requires Source() && done <= info.fileSize && (raw == [] ==> done == info.compressSize)
      requires PartOf(file, start + done, raw) && done + |raw| <= info.compressSize
      requires data == Take(raw, info.fileSize - done)
      ensures PartOf(content, done, data)
      ensures crc32(data, crc32(content[..done], 0)) == crc32(content[..done + |data|], 0)
      ensures done + |raw| == info.compressSize || done + |data| == info.fileSize ==>
                && done + |data| == |content|
                && Fault() == if crc32(content[..done + |data|], 0) == info.crc then None else Some(BadZipFile)
    {
      assert forall i :: 0 <= i < |data| ==> data[i] == raw[i] == file[start + done + i];
      ChecksumStep(crc32, content, done, data);
      if done + |raw| == info.compressSize || done + |data| == info.fileSize {
        MemberEnds(done, |raw|);
        assert content[..|content|] == content;
      }
    }

    /** The end of _read1: the member goes on by what was read of the file, cut to what is left. */
    method Accept(raw: seq<byte>) returns (r: Result<seq<byte>, ZipError>)
      requires Source() && readbuffer == [] && offset == 0 && !eof
      requires 0 <= Consumed() <= |content| && runningCrc == crc32(content[..Consumed()], 0)
      requires PartOf(file, start + Consumed(), raw) && filePos == start + Consumed() + |raw|
      requires compressLeft == info.compressSize - Consumed() - |raw| && (raw == [] ==> compressLeft == 0)
      requires left > 0 || info.fileSize == 0
      modifies this`left, this`eof, this`runningCrc
      ensures Valid()
      ensures r.Ok? ==> Consumed() == old(Consumed()) + |r.value| && PartOf(content, old(Consumed()), r.value)
      ensures r.Ok? ==> (r.value != [] || eof) && (eof ==> Fault() == None)
      ensures r.Err? ==> Consumed() == |content| && Fault() == Some(r.error)
    {
      var data := Take(raw, left);
      Next(Consumed(), raw, data);
      left := left - |data|;
      eof := compressLeft <= 0 || left <= 0;
      var checked := UpdateCrc(data);
      r := if checked.Err? then Err(checked.error) else Ok(data);
    }

    /** _read1: some more bytes of the member, taken with one read of the file; the buffer is empty. */
    method ReadSome(n: int) returns (r: Result<seq<byte>, ZipError>)
      requires Valid() && readbuffer == []
      modifies this`filePos, this`compressLeft, this`left, this`eof, this`runningCrc
      ensures Valid()
      ensures r.Ok? ==> Consumed() == old(Consumed()) + |r.value| && PartOf(content, old(Consumed()), r.value)
      ensures r.Ok? && !old(eof) && n > 0 ==> r.value != [] || eof
      ensures old(eof) || n <= 0 ==> r == Ok([]) && eof == old(eof)
      ensures r.Ok? && eof && !old(eof) ==> Fault() == None
      ensures r.Err? ==> !old(eof) && Consumed() == |content| && Fault() == Some(r.error)
    {
      if eof || n <= 0 {
        return Ok([]);
      }
      r := ReadRaw(n);
      if r.Ok? {
        r := Accept(r.value);
      } else {
        FileEnds(Consumed());
      }
    }

    /** Everything in the buffer from the position on; the buffer is empty then. */
    method Drain() returns (buf: seq<byte>)
      requires Valid()
      modifies this`readbuffer, this`offset
      ensures Valid() && readbuffer == [] && offset == 0
      ensures PartOf(content, old(Position()), buf) && old(Position()) + |buf| == Consumed()
    {
      PartSlice(content, Consumed() - |readbuffer|, readbuffer, offset, |readbuffer|);
      buf := readbuffer[offset..];
      readbuffer, offset := [], 0;
    }

    /** The buffer from the position up to `end`, which is the position then. */
    method Advance(end: nat) returns (buf: seq<byte>)
      requires Valid() && offset <= end <= |readbuffer|
      modifies this`offset
      ensures Valid() && offset == end
      ensures PartOf(content, old(Position()), buf) && old(Position()) + |buf| == Position()
    {
      PartSlice(content, Consumed() - |readbuffer|, readbuffer, offset, end);
      buf := readbuffer[offset..end];
      offset := end;
    }

    /** What was read beyond the m bytes that were asked for stays in the buffer. */
    method Keep(data: seq<byte>, m: nat) returns (buf: seq<byte>)
      requires Valid() && m <= |data| && PartOf(content, Consumed() - |data|, data)
      modifies this`readbuffer, this`offset
      ensures Valid() && readbuffer == data && offset == m
      ensures buf == data[..m] && PartOf(content, Consumed() - |data|, buf)
    {
      PartSlice(content, Consumed() - |data|, data, 0, m);
      readbuffer, offset := data, m;
      return data[..m];
    }

    /** read(-1): everything from the position on. */
    method ReadRest() returns (r: Result<seq<byte>, ZipError>)
      requires Valid()
      modifies this
      ensures Valid() && Position() == |content|
      ensures r.Ok? ==> PartOf(content, old(Position()), r.value) && old(Position()) + |r.value| == |content| && eof
      ensures r.Ok? && !old(eof) ==> Fault() == None
      ensures r.Err? ==> !old(eof) && Fault() == Some(r.error)
      ensures old(eof) ==> eof
    {
      ghost var p := Position();
      var buf := Drain();
      while !eof
        invariant Valid() && readbuffer == [] && offset == 0
        invariant PartOf(content, p, buf) && p + |buf| == Consumed()
        invariant eof && !old(eof) ==> Fault() == None
        invariant old(eof) ==> eof
        decreases |content| - Consumed(), if eof then 0 else 1
      {
        r := ReadSome(MAX_N);
        if r.Err? {
          return;
        }
        PartJoin(content, p, buf, r.value);
        buf := buf + r.value;
      }
      return Ok(buf);
    }

    /** read(n): up to n bytes from the position on, fewer only at the end. */
    method ReadUpTo(n: nat) returns (r: Result<seq<byte>, ZipError>)
      requires Valid()
      modifies this
      ensures Valid()
      ensures r.Ok? ==> PartOf(content, old(Position()), r.value) && old(Position()) + |r.value| == Position()
      ensures r.Ok? ==> |r.value| == n || (|r.value| < n && Position() == |content|)
      ensures r.Ok? && eof && !old(eof) ==> Fault() == None
      ensures r.Err? ==> !old(eof) && Position() == |content| && Fault() == Some(r.error)
      ensures old(eof) ==> eof
    {
      ghost var p := Position();
      var end := n + offset;
      if end < |readbuffer| {
        var part := Advance(end);
        return Ok(part);
      }
      var m := end - |readbuffer|;
      var buf := Drain();
      while m > 0 && !eof
        invariant Valid() && readbuffer == [] && offset == 0
        invariant m >= 0 && |buf| + m == n
        invariant PartOf(content, p, buf) && p + |buf| == Consumed()
        invariant eof && !old(eof) ==> Fault() == None
        invariant old(eof) ==> eof
        decreases m, if eof then 0 else 1
      {
        r := ReadSome(m);
        if r.Err? {
          return;
        }
        if m < |r.value| {
          var part := Keep(r.value, m);
          PartJoin(content, p, buf, part);
          return Ok(buf + part);
        }
        PartJoin(content, p, buf, r.value);
        buf := buf + r.value;
        m := m - |r.value|;
      }
      return Ok(buf);
    }

    /** read: n bytes from the position on, or all of them if n is negative. */
    method Read(n: int) returns (r: Result<seq<byte>, ZipError>)
      requires Valid()
      modifies this
      ensures Valid()
      ensures r.Ok? ==> PartOf(content, old(Position()), r.value) && old(Position()) + |r.value| == Position()
      ensures r.Ok? ==> |r.value| == n || (Position() == |content| && (|r.value| < n || n < 0))
      ensures r.Ok? && n < 0 ==> eof
      ensures r.Ok? && eof && !old(eof) ==> Fault() == None
      ensures r.Err? ==> !old(eof) && Position() == |content| && Fault() == Some(r.error)
      ensures old(eof) ==> eof
    {
      if n < 0 {
        r := ReadRest();
      } else {
        r := ReadUpTo(n);
      }
    }

    /** read1: bytes from the position on, at least one unless there are none, with at most one read of the file. */
    method Read1(n: int) returns (r: Result<seq<byte>, ZipError>)
      requires Valid()
      modifies this
      ensures Valid()
      ensures r.Ok? ==> PartOf(content, old(Position()), r.value) && old(Position()) + |r.value| == Position()
      ensures r.Ok? ==> (n >= 0 ==> |r.value| <= n) && (n != 0 && old(Position()) < |content| ==> r.value != [])
      ensures r.Ok? && eof && !old(eof) ==> Fault() == None
      ensures r.Err? ==> !old(eof) && Position() == |content| && Fault() == Some(r.error)
      ensures old(eof) ==> eof
    {
      if 0 <= n && n + offset < |readbuffer| {
        var part := Advance(n + offset);
        return Ok(part);
      }
      var m := if n < 0 then MAX_N else n + offset - |readbuffer|;
      var buf := Drain();
      if m > 0 {
        r := Read1More(buf, m, n >= 0);
      } else {
        r := Ok(buf);
      }
    }

    /** The loop of read1: one more piece, if there is one, cut to m bytes if a limit was given. */
    method Read1More(buf: seq<byte>, m: nat, limited: bool) returns (r: Result<seq<byte>, ZipError>)
      requires Valid() && readbuffer == [] && offset == 0 && m > 0
      requires |buf| <= Consumed() && PartOf(content, Consumed() - |buf|, buf)
      modifies this
      ensures Valid()
      ensures r.Ok? ==> PartOf(content, old(Consumed()) - |buf|, r.value)
                        && old(Consumed()) - |buf| + |r.value| == Position() && |buf| <= |r.value|
      ensures r.Ok? ==> (limited ==> |r.value| <= |buf| + m)
                        && (old(Consumed()) < |content| ==> |r.value| > |buf|)
      ensures r.Ok? && eof && !old(eof) ==> Fault() == None
      ensures r.Err? ==> !old(eof) && Position() == |content| && Fault() == Some(r.error)
      ensures old(eof) ==> eof
    {
      ghost var p := Consumed() - |buf|;
      while !eof
        invariant Valid() && readbuffer == [] && offset == 0 && p + |buf| == Consumed()
        invariant eof && !old(eof) ==> Fault() == None
        invariant old(eof) ==> eof
        decreases if eof then 0 else 1
      {
        r := ReadSome(m);
        if r.Err? {
          return;
        }
        if limited && m < |r.value| {
          var part := Keep(r.value, m);
          PartJoin(content, p, buf, part);
          return Ok(buf + part);
        }
        if r.value != [] {
          PartJoin(content, p, buf, r.value);
          return Ok(buf + r.value);
        }
      }
      return Ok(buf);
    }

    /** Bytes that were just read go back before the rest of the buffer. */
    method PutBack(chunk: seq<byte>)
      requires Valid() && PartOf(content, Position() - |chunk|, chunk)
      modifies this`readbuffer, this`offset
      ensures Valid() && Position() == old(Position()) - |chunk|
      ensures |readbuffer| - offset == old(|readbuffer| - offset) + |chunk|
    {
      if |chunk| > offset {
        PartSlice(content, Consumed() - |readbuffer|, readbuffer, offset, |readbuffer|);
        PartJoin(content, Position() - |chunk|, chunk, readbuffer[offset..]);
        readbuffer := chunk + readbuffer[offset..];
        offset := 0;
      } else {
        offset := offset - |chunk|;
      }
    }

    /** peek: up to 512 bytes from the position on, which stays where it is. */
    method Peek(n: int) returns (r: Result<seq<byte>, ZipError>)
      requires Valid()
      modifies this
      ensures Valid()
      ensures r.Ok? ==> Position() == old(Position()) && PartOf(content, Position(), r.value)
      ensures r.Ok? ==> |r.value| <= MAX_PEEK
      ensures r.Ok? ==> |r.value| >= n || |r.value| == MAX_PEEK || Position() + |r.value| == |content|
      ensures r.Ok? && eof && !old(eof) ==> Fault() == None
      ensures r.Err? ==> !old(eof) && Position() == |content| && Fault() == Some(r.error)
      ensures old(eof) ==> eof
    {
      if n > |readbuffer| - offset {
        r := Read(n);
        if r.Err? {
          return;
        }
        PutBack(r.value);
      }
      var ahead := Ahead();
      return Ok(ahead);
    }

    /** What the buffer has after the position. */
    method Ahead() returns (r: seq<byte>)
      requires Valid()
      ensures PartOf(content, Position(), r) && |r| == Min(MAX_PEEK, |readbuffer| - offset)
    {
      var to := Min(offset + MAX_PEEK, |readbuffer|);
      PartSlice(content, Consumed() - |readbuffer|, readbuffer, offset, to);
      return readbuffer[offset..to];
    }

    /** Back to the state of a new object. */
    method Reset()
      requires Source()
      modifies this
      ensures Valid() && Position() == 0 && !eof
    {
      filePos, runningCrc := start, crc32([], 0);
      compressLeft, left := info.compressSize, info.fileSize;
      readbuffer, offset, eof := [], 0, false;
    }

    /** The loop of seek: what comes next is read and thrown away. */
    method Skip(n: nat) returns (r: Result<(), ZipError>)
      requires Valid()
      modifies this
      ensures Valid()
      ensures r.Ok? ==> Position() == Min(old(Position()) + n, |content|)
      ensures r.Ok? && eof && !old(eof) ==> Fault() == None
      ensures r.Err? ==> Position() == |content| && Fault() == Some(r.error)
    {
      var readOffset := n;
      while readOffset > 0
        invariant Valid() && readOffset >= 0
        invariant Position() == old(Position()) + n - readOffset
                  || (Position() == |content| && old(Position()) + n - readOffset >= |content|)
        invariant eof && !old(eof) ==> Fault() == None
        invariant old(eof) ==> eof
      {
        var len := Min(MAX_SEEK_READ, readOffset);
        var skipped := Read(len);
        if skipped.Err? {
          return Err(skipped.error);
        }
        readOffset := readOffset - len;
      }
      return Ok(());
    }

    /** seek: within the buffer if possible; going back further starts again from the beginning. */
    method Seek(delta: int, whence: int) returns (r: Result<nat, ZipError>)
      requires Valid()
      modifies this
      ensures Valid()
      ensures r.Ok? ==> 0 <= whence <= 2 && r.value == Position()
                        && Position() == Min(Target(info.fileSize, old(Position()), delta, whence), |content|)
      ensures !(0 <= whence <= 2) ==> r == Err(ValueError) && Position() == old(Position())
      ensures r.Ok? && eof && !old(eof) ==> Fault() == None
      ensures r.Err? && 0 <= whence <= 2 ==> Position() == |content| && Fault() == Some(r.error)
    {
      if !(0 <= whence <= 2) {
        return Err(ValueError);
      }
      var current := Tell();
      var target := Target(info.fileSize, current, delta, whence);
      var readOffset := target - current;
      var buffOffset := readOffset + offset;
      if 0 <= buffOffset < |readbuffer| {
        offset := buffOffset;
        readOffset := 0;
      } else if readOffset < 0 {
        Reset();
        readOffset := target;
      }
      var skipped := Skip(readOffset);
      if skipped.Err? {
        return Err(skipped.error);
      }
      var position := Tell();
      return Ok(position);
    }

    method Tell() returns (position: nat)
      requires Valid()
      ensures position == Position()
    {
      return info.fileSize - left - |readbuffer| + offset;
    }

    /**
     Any calls, one after the other, on a member without fault: each gives what the plain cursor that starts
     at the position gives, and leaves it where that cursor goes.
     */
    method Replay(ops: seq<Op>) returns (outs: seq<Out>, ghost at: seq<int>)
      requires Valid() && Fault() == None
      modifies this
      ensures Valid() && |outs| == |ops| && |at| == |ops| + 1 && at[0] == old(Position()) && at[|ops|] == Position()
      ensures forall i :: 0 <= i < |ops| ==> CursorStep(content, info.fileSize, at[i], ops[i], outs[i], at[i + 1])
    {
      outs, at := [], [Position()];
      for i := 0 to |ops|
        invariant Valid() && |outs| == i && |at| == i + 1 && at[0] == old(Position()) && at[i] == Position()
        invariant forall k :: 0 <= k < i ==> CursorStep(content, info.fileSize, at[k], ops[k], outs[k], at[k + 1])
      {
        var out := Do(ops[i]);
        outs, at := outs + [out], at + [Position()];
      }
    }

    method Do(op: Op) returns (out: Out)
      requires Valid() && Fault() == None
      modifies this
      ensures Valid()
      ensures CursorStep(content, info.fileSize, old(Position()), op, out, Position())
    {
      match op {
        case Read(n) =>
          var r := this.Read(n);
          out := Data(r.value);
        case Read1(n) =>
          var r := this.Read1(n);
          out := Data(r.value);
        case Peek(n) =>
          var r := this.Peek(n);
          out := Data(r.value);
        case Seek(delta, whence) =>
          var r := this.Seek(delta, whence);
          out := if r.Ok? then At(r.value) else Invalid;
        case Tell =>
          var position := this.Tell();
          out := At(position);
      }
    }
  }
}
