/** Writing an archive: bin/custom_zipfile.py, the writing half of ZipFile and _ZipWriteFile. */
module ZipWriter {
  import opened Bits
  import opened Wrappers
  import opened ZipStruct
  import ZipExtra
  import opened ZipRecords
  import opened ZipEnd
  import opened ZipArchive

  const DEFAULT_VERSION := 20
  const CREATE_SYSTEM := 3
  const DIRECTORY_ATTR := 0x41FD_0010
  const FILE_ATTR := 0x0180_0000

  /** ZipInfo(filename, date_time), for a year that it takes. */
  function NewInfo(name: seq<byte>, date: DateTime): ZipInfo {
    ZipInfo(name, TruncateAtNul(name), date, 0, [], [], CREATE_SYSTEM, DEFAULT_VERSION, DEFAULT_VERSION, 0, 0, 0, 0, 0,
            0, 0, 0, 0)
  }

  /** The object that writestr makes for a name. */
  function StrInfo(name: seq<byte>, size: nat, date: DateTime): ZipInfo
    requires TruncateAtNul(name) != []
  {
    var z := NewInfo(name, date);
    z.(fileSize := size, externalAttr := if z.name[|z.name| - 1] == 0x2F then DIRECTORY_ATTR else FILE_ATTR)
  }

  /** An object without anything of the caller's in it, whose versions are those that this program writes. */
  predicate Plain(z: ZipInfo) {
    && z.extra == [] && z.comment == [] && z.createSystem < 0x100 && z.reserved == 0 && z.internalAttr == 0
    && z.externalAttr <= MAX32 && z.createVersion <= ZIP64_VERSION && z.extractVersion <= ZIP64_VERSION
  }

  /** Such objects always fit the directory, and a reader takes them. */
  lemma PlainReadable(z: ZipInfo, zip64: bool)
    requires ValidInfo(z) && Plain(z) && LocalFits(z, zip64)
    requires z.fileSize <= MAX64 && z.compressSize <= MAX64 && z.headerOffset <= MAX64
    ensures Readable(z)
  {
    assert ZipExtra.Strip([]) == [];
  }

  /** The object that _open_to_write starts from. */
  function Prepared(z: ZipInfo, at: nat): ZipInfo {
    z.(compressSize := 0, crc := 0, flagBits := 0, headerOffset := at,
       externalAttr := if z.externalAttr == 0 then FILE_ATTR else z.externalAttr)
  }

  /** file_size * 1.05 > ZIP64_LIMIT, without rounding. */
  predicate UsesZip64(allowZip64: bool, force: bool, size: nat) {
    allowZip64 && (force || size * 105 > ZIP64_LIMIT * 100)
  }

  /** _writecheck: without ZIP64 some archives cannot be written. */
  predicate NeedsPermission(count: nat, size: nat, offset: nat) {
    count >= ZIP_FILECOUNT_LIMIT || size > ZIP64_LIMIT || offset > ZIP64_LIMIT
  }

  function Sized(z: ZipInfo, size: nat, crc: nat): ZipInfo {
    z.(compressSize := size, fileSize := size, crc := crc)
  }

  /** The exception, if any, that opening a member for writing comes to: only ever for lack of room. */
  function OpenFault(z: ZipInfo, force: bool, allowZip64: bool, count: nat, at: nat): Option<ZipError>
    requires ValidInfo(z.(headerOffset := 0))
  {
    var wide := UsesZip64(allowZip64, force, z.fileSize);
    if !allowZip64 && NeedsPermission(count, z.fileSize, at) then Some(LargeZipFile)
    else if !LocalFits(Prepared(z, at), wide) || z.fileSize > MAX64 then Some(StructError)
    else None
  }

  /** The exception, if any, that writing the end records comes to. */
  function EndFault(count: nat, size: nat, offset: nat, comment: seq<byte>, allowZip64: bool): Option<ZipError> {
    if NeedsZip64(count, size, offset) && !allowZip64 then Some(LargeZipFile)
    else if !EndFits(count, size, offset, comment) then Some(StructError)
    else None
  }

  /** What the object says once its data is complete. */
  function Completed(z: ZipInfo, size: nat, crc: nat): ZipInfo {
    HeaderVersions(Sized(z, size, crc))
  }

  /** The header does not change when the versions have gone up already. */
  lemma SameHeader(z: ZipInfo, zip64: bool)
    requires ValidInfo(z)
    ensures ValidInfo(HeaderVersions(z)) && LocalHeader(HeaderVersions(z), zip64) == LocalHeader(z, zip64)
  {
    assert LocalValues(HeaderVersions(z), zip64) == LocalValues(z, zip64);
  }

  /** FileHeader, for a header that has room for the sizes: what can go wrong, and what comes of it. */
  method MakeHeader(x: ZipInfo, wide: bool) returns (r: Result<(seq<byte>, ZipInfo), ZipError>)
    requires ValidInfo(x) && (Large(x) ==> wide)
    ensures r.Ok? <==> LocalFits(x, wide) && x.fileSize <= MAX64 && x.compressSize <= MAX64
    ensures r.Err? ==> r.error == StructError
    ensures r.Ok? ==> r.value.1 == HeaderVersions(x) && |r.value.0| == HeaderSize(x, wide)
    ensures r.Ok? ==> IsHeader(r.value.0, r.value.1, wide)
  {
    r := FileHeader(x, wide);
    SameHeader(x, wide);
    HeaderLength(x, wide);
    if r.Ok? {
      ShowHeader(r.value.0, r.value.1, wide);
    }
  }

  /** A header and its object, for a member at position `at`. */
  ghost predicate Ready(head: seq<byte>, x: ZipInfo, wide: bool, at: nat) {
    && ValidInfo(x) && LocalFits(x, wide) && |head| == HeaderSize(x, wide) && IsHeader(head, x, wide)
    && x.headerOffset == at && x.flagBits == 0
  }

  /** The member is the one that was opened with z and this kind of header, with this data. */
  predicate Describes(m: Member, z: ZipInfo, wide: bool, data: seq<byte>, crc32: Crc32) {
    m.data == data && m.zip64 == wide && m.info == Completed(z, |data|, crc32(data, 0))
  }

  /** The object of a member that writestr stored at a position. */
  function StoredInfo(name: seq<byte>, data: seq<byte>, date: DateTime, at: nat, crc32: Crc32): ZipInfo
    requires TruncateAtNul(name) != []
  {
    Completed(Prepared(StrInfo(name, |data|, date), at), |data|, crc32(data, 0))
  }

  /** The exception, if any, that writestr comes to on a file that is open and not being written. */
  function StrFault(name: seq<byte>, size: nat, date: DateTime, allowZip64: bool, count: nat, at: nat): Option<ZipError>
    requires ValidName(name) && ValidTime(date)
  {
    if date.year < 1980 then Some(ValueError)
    else if TruncateAtNul(name) == [] then Some(IndexError)
    else
      StrInfoValid(name, size, date);
      OpenFault(StrInfo(name, size, date), false, allowZip64, count, at)
  }

  predicate ValidName(name: seq<byte>) {
    forall b :: b in name ==> b < 128
  }

  predicate ValidTime(d: DateTime) {
    d.month < 16 && d.day < 32 && d.hour < 24 && d.minute < 60 && d.second < 64
  }

  lemma {:induction false} TruncatedName(name: seq<byte>)
    requires ValidName(name)
    ensures forall b :: b in TruncateAtNul(name) ==> 0 < b < 128
  {
  }

  lemma {:induction false} StrInfoValid(name: seq<byte>, size: nat, date: DateTime)
    requires ValidName(name) && ValidTime(date) && date.year >= 1980 && TruncateAtNul(name) != []
    ensures ValidInfo(StrInfo(name, size, date).(headerOffset := 0))
  {
    TruncatedName(name);
    var z := StrInfo(name, size, date).(headerOffset := 0);
    assert z.name == TruncateAtNul(name);
  }

  /**
   What a member that writestr stored at a position is, but for its header, which is that of its object.
   Looked into only for data that is shown.
   */
  ghost predicate IsWritten(
      m: Member, name: seq<byte>, data: seq<byte>, date: DateTime, at: nat, allowZip64: bool, crc32: Crc32)
  {
    forall d {:trigger Shown(d)} :: Shown(d) && d == data ==>
      && TruncateAtNul(name) != [] && m.info == StoredInfo(name, d, date, at, crc32)
      && m.zip64 == UsesZip64(allowZip64, false, |d|) && m.data == d
  }

  lemma {:induction false} ShowWritten(
      m: Member, name: seq<byte>, data: seq<byte>, date: DateTime, at: nat, allowZip64: bool, crc32: Crc32)
    ensures IsWritten(m, name, data, date, at, allowZip64, crc32) <==>
              && TruncateAtNul(name) != [] && m.info == StoredInfo(name, data, date, at, crc32)
              && m.zip64 == UsesZip64(allowZip64, false, |data|) && m.data == data
  {
    assert Shown(data);
  }

  /** The header that is written first changes nothing about the object in the end. */
  lemma {:induction false} StrMember(
      m: Member, name: seq<byte>, data: seq<byte>, date: DateTime, at: nat, allowZip64: bool, crc32: Crc32)
    requires TruncateAtNul(name) != []
    requires Describes(m, HeaderVersions(Prepared(StrInfo(name, |data|, date), at)),
                       UsesZip64(allowZip64, false, |data|), data, crc32)
    ensures IsWritten(m, name, data, date, at, allowZip64, crc32)
  {
    ShowWritten(m, name, data, date, at, allowZip64, crc32);
  }

  /** A write at a position inside the file: what is there is overwritten, the rest stays. */
  function Overwrite(content: seq<byte>, at: nat, data: seq<byte>): (r: seq<byte>)
    requires at <= |content|
    ensures |r| >= at + |data| && r[..at] == content[..at] && r[at..at + |data|] == data
  {
    content[..at] + data + Drop(content, at + |data|)
  }

  lemma OverwriteAtEnd(content: seq<byte>, from: nat, at: nat, data: seq<byte>)
    requires from <= at <= |content|
    ensures |Overwrite(content, at, data)| >= at + |data|
    ensures Overwrite(content, at, data)[from..at + |data|] == content[from..at] + data
    ensures Overwrite(content, at, data)[..from] == content[..from]
  {
  }

  lemma DropConcat(a: seq<byte>, b: seq<byte>, k: nat)
    ensures Drop(a + b, |a| + k) == Drop(b, k)
  {
  }

  lemma DropDrop(s: seq<byte>, i: nat, k: nat)
    ensures Drop(Drop(s, i), k) == Drop(s, i + k)
  {
  }

  /** Two writes in a row are one. */
  lemma OverwriteTwice(content: seq<byte>, at: nat, a: seq<byte>, b: seq<byte>)
    requires at <= |content|
    ensures Overwrite(Overwrite(content, at, a), at + |a|, b) == Overwrite(content, at, a + b)
  {
    var front, tail := content[..at] + a, Drop(content, at + |a|);
    assert (front + tail)[..|front|] == front;
    DropConcat(front, tail, |b|);
    DropDrop(content, at + |a|, |b|);
    Associate(content[..at], a, b);
  }

  /** The stream is now as it was at `c`, with the data written at a position. Looked into only when shown. */
  ghost predicate Wrote(c: seq<byte>, at: nat, data: seq<byte>, now: seq<byte>) {
    forall s {:trigger Shown(s)} :: Shown(s) && s == now ==> at <= |c| && s == Overwrite(c, at, data)
  }

  lemma ShowWrote(c: seq<byte>, at: nat, data: seq<byte>, now: seq<byte>)
    ensures Wrote(c, at, data, now) <==> at <= |c| && now == Overwrite(c, at, data)
  {
    assert Shown(now);
  }

  lemma WroteNothing(c: seq<byte>, at: nat)
    requires at <= |c|
    ensures Wrote(c, at, [], c)
  {
    assert Overwrite(c, at, []) == c;
    ShowWrote(c, at, [], c);
  }

  /** A write that goes on where the last one ended. */
  lemma WroteMore(c: seq<byte>, at: nat, a: seq<byte>, mid: seq<byte>, b: seq<byte>, now: seq<byte>)
    requires Wrote(c, at, a, mid) && Wrote(mid, at + |a|, b, now)
    ensures Wrote(c, at, a + b, now)
  {
    ShowWrote(c, at, a, mid);
    ShowWrote(mid, at + |a|, b, now);
    OverwriteTwice(c, at, a, b);
    ShowWrote(c, at, a + b, now);
  }

  /** What was written and what is before it, from any position on. */
  lemma WroteAt(c: seq<byte>, at: nat, data: seq<byte>, now: seq<byte>, from: nat)
    requires Wrote(c, at, data, now) && from <= at
    ensures at <= |c| && at + |data| <= |now|
    ensures now[from..at + |data|] == c[from..at] + data && now[..from] == c[..from]
    ensures |now| == Max(|c|, at + |data|)
  {
    ShowWrote(c, at, data, now);
    OverwriteAtEnd(c, from, at, data);
  }

  /** A new header of the same length leaves what is before and after it. */
  lemma HeaderReplaced(
      content: seq<byte>, at: nat, old_: seq<byte>, head: seq<byte>, data: seq<byte>, end: nat, now: seq<byte>)
    requires |head| == |old_| && end == at + |old_| + |data| && end <= |content|
    requires content[at..end] == old_ + data && Wrote(content, at, head, now)
    ensures end <= |now| && now[..end] == content[..at] + (head + data) && |now| == |content|
  {
    ShowWrote(content, at, head, now);
    assert content[at + |old_|..end] == data by {
      assert content[at..end][|old_|..] == data;
    }
    assert now[..end] == content[..at] + head + content[at + |head|..end];
  }

  lemma MembersAppend(base: seq<byte>, ms: seq<Member>, crc32: Crc32, m: Member)
    requires Placed(ms, |base|) && AllValid(ms, crc32) && ValidMember(m, crc32)
    requires m.info.headerOffset == |base + Body(ms)|
    ensures Placed(ms + [m], |base|) && AllValid(ms + [m], crc32)
    ensures base + Body(ms + [m]) == base + Body(ms) + MemberBytes(m)
  {
    PlacedAppend(ms, |base|, m);
    Associate(base, Body(ms), MemberBytes(m));
  }

  lemma InfosAppend(ms: seq<Member>, m: Member)
    ensures Infos(ms + [m]) == Infos(ms) + [m.info]
  {
  }

  lemma {:induction false} ByNameAppend(zs: seq<ZipInfo>, z: ZipInfo)
    ensures ByName(zs + [z]) == ByName(zs)[z.name := z]
  {
    assert (zs + [z])[..|zs|] == zs;
  }

  /** Directory and end records, written after the members, make the archive. */
  lemma ClosedContent(c: seq<byte>, base: seq<byte>, ms: seq<Member>, comment: seq<byte>)
    requires |base + Body(ms)| <= |c| && c[..|base + Body(ms)|] == base + Body(ms)
    ensures var archive := Archive(base, ms, comment);
            var dir := Directory(Infos(ms));
            && Overwrite(c, |base + Body(ms)|, dir + EndRecords(|ms|, |dir|, |base + Body(ms)|, comment))
               == archive + Drop(c, |archive|)
            && |archive| == |base + Body(ms)| + |dir + EndRecords(|ms|, |dir|, |base + Body(ms)|, comment)|
  {
    var dir := Directory(Infos(ms));
    Associate(base + Body(ms), dir, EndRecords(|ms|, |dir|, |base + Body(ms)|, comment));
  }

  lemma MiddlePart(c: seq<byte>, end: nat, base: seq<byte>, first: seq<byte>, own: seq<byte>, rest: seq<byte>)
    requires end <= |c| && c[..end] == base + (first + own + rest)
    ensures c[|base| + |first|..|base| + |first| + |own|] == own
  {
    var at := |base| + |first|;
    assert c[at..at + |own|] == c[..end][at..at + |own|];
  }

  /** A member that is in place is in the file where its object says. */
  lemma BytesAtOffset(c: seq<byte>, end: nat, base: seq<byte>, ms: seq<Member>, i: nat)
    requires end <= |c| && c[..end] == base + Body(ms) && Placed(ms, |base|) && i < |ms|
    ensures 0 <= ms[i].info.headerOffset && ms[i].info.headerOffset + |MemberBytes(ms[i])| <= end
    ensures c[ms[i].info.headerOffset..ms[i].info.headerOffset + |MemberBytes(ms[i])|] == MemberBytes(ms[i])
  {
    FlatAt(MemberBytes, ms, i);
    MiddlePart(c, end, base, Body(ms[..i]), MemberBytes(ms[i]), Body(ms[i + 1..]));
  }

  class Writer {
    const crc32: Crc32
    const allowZip64: bool
    /** What the stream held before. */
    ghost const base: seq<byte>
    var content: seq<byte>
    var pos: nat
    var startDir: nat
    var filelist: seq<ZipInfo>
    var nameToInfo: map<seq<byte>, ZipInfo>
    var comment: seq<byte>
    var closed: bool
    /** Whether a member is open for writing; the other fields of the handle mean something only then. */
    var writing: bool
    var zinfo: ZipInfo
    var zip64: bool
    var fileSize: nat
    var crc: nat
    ghost var members: seq<Member>
    ghost var header: seq<byte>
    ghost var written: seq<byte>

    /** The members that are listed follow one another up to start_dir, each where its object says. */
    ghost predicate InPlace()
      reads this`startDir, this`members
    {
      startDir == |base + Body(members)| && Placed(members, |base|) && AllValid(members, crc32)
    }

    /** filelist and NameToInfo are those of the members. */
    ghost predicate Named()
      reads this`filelist, this`nameToInfo, this`members
    {
      filelist == Infos(members) && nameToInfo == ByName(filelist)
    }

    ghost predicate Listed()
      reads this`startDir, this`filelist, this`nameToInfo, this`members
    {
      InPlace() && Named()
    }

    /** Up to start_dir the file holds what was there before and the members. */
    ghost predicate Stored()
      reads this`content, this`startDir, this`members
    {
      startDir <= |content| && content[..startDir] == base + Body(members)
    }

    /** The header of the open member could be packed, and says where it is. */
    ghost predicate Opened()
      reads this`startDir, this`zinfo, this`zip64, this`header
    {
      && ValidInfo(zinfo) && LocalFits(zinfo, zip64) && |header| == HeaderSize(zinfo, zip64)
      && zinfo.headerOffset == startDir && zinfo.flagBits == 0
    }

    /** From start_dir on the file holds the header and the data of the open member, which are counted. */
    ghost predicate Counted()
      reads this`content, this`startDir, this`pos, this`fileSize, this`crc, this`header, this`written
    {
      && pos == startDir + |header| + |written| && pos <= |content| && content[startDir..pos] == header + written
      && fileSize == |written| <= MAX64 && crc == crc32(written, 0)
    }

    ghost predicate Handle()
      reads this`content, this`startDir, this`pos, this`zinfo, this`zip64, this`fileSize, this`crc, this`header,
        this`written
    {
      Opened() && Counted()
    }

    ghost predicate Valid()
      reads this
    {
      |comment| <= ZIP_MAX_COMMENT && Listed() && Stored() && (writing ==> !closed && Handle())
    }

    /** In every state of the writer the members that are listed are apart, and all of them before start_dir. */
    lemma ListedApart(i: nat, j: nat)
      requires Valid() && i < |members| && j < |members|
      ensures filelist[i] == members[i].info && |filelist| == |members|
      ensures |base| <= filelist[i].headerOffset && filelist[i].headerOffset + |MemberBytes(members[i])| <= startDir
      ensures i < j ==> filelist[i].headerOffset + |MemberBytes(members[i])| <= filelist[j].headerOffset
      ensures content[filelist[i].headerOffset..filelist[i].headerOffset + |MemberBytes(members[i])|]
           == MemberBytes(members[i])
    {
      RangesDisjoint(members, |base|, i, j);
      BytesAtOffset(content, startDir, base, members, i);
    }

    /** Mode 'w' on a stream that stands at its end. */
    constructor (stream: seq<byte>, allowZip64: bool, crc32: Crc32)
      ensures Valid() && base == stream && members == [] && !writing && !closed
      ensures this.allowZip64 == allowZip64 && this.crc32 == crc32 && content == stream && comment == []
    {
      this.crc32, this.allowZip64, base, content := crc32, allowZip64, stream, stream;
      pos, startDir, filelist, nameToInfo := |stream|, |stream|, [], map[];
      comment, closed, writing := [], false, false;
      zinfo, zip64, fileSize, crc := NewInfo([], DateTime(1980, 1, 1, 0, 0, 0)), false, 0, 0;
      members, header, written := [], [], [];
    }

    /** The comment setter: long comments are cut. */
    method SetComment(text: seq<byte>)
      requires Valid()
      modifies this`comment
      ensures Valid() && comment == text[..Min(|text|, ZIP_MAX_COMMENT)]
    {
      comment := text[..Min(|text|, ZIP_MAX_COMMENT)];
    }

    method WriteBytes(data: seq<byte>)
      requires pos <= |content|
      modifies this`content, this`pos
      ensures Wrote(old(content), old(pos), data, content) && pos == old(pos) + |data| <= |content|
    {
      ShowWrote(content, pos, data, Overwrite(content, pos, data));
      content := Overwrite(content, pos, data);
      pos := pos + |data|;
    }

    /** A new handle: the header is written where the directory would begin. */
    method Start(head: seq<byte>, x: ZipInfo, wide: bool)
      requires Listed() && Stored() && !closed && |comment| <= ZIP_MAX_COMMENT
      requires Ready(head, x, wide, startDir) && pos == startDir
      modifies this`content, this`pos, this`writing, this`zinfo, this`zip64, this`fileSize, this`crc, this`header,
        this`written
      ensures Valid() && writing && written == [] && zinfo == x && zip64 == wide
      ensures |content| == Max(old(|content|), pos)
    {
      ghost var c := content;
      WriteBytes(head);
      WroteAt(c, startDir, head, content, startDir);
      header, written := head, [];
      writing, zinfo, zip64, fileSize, crc := true, x, wide, 0, 0;
      assert crc32([], 0) == 0;
    }

    /** The checks of _open_to_write, and the header that it writes. */
    method Prepare(z: ZipInfo, force: bool) returns (r: Result<(seq<byte>, ZipInfo, bool), ZipError>)
      requires Listed() && ValidInfo(z.(headerOffset := 0))
      ensures r.Ok? ==> Ready(r.value.0, r.value.1, r.value.2, startDir)
      ensures r.Ok? ==> r.value.2 == UsesZip64(allowZip64, force, z.fileSize)
                        && r.value.1 == HeaderVersions(Prepared(z, startDir))
      ensures OpenFault(z, force, allowZip64, |members|, startDir) == if r.Ok? then None else Some(r.error)
    {
      var x := Prepared(z, startDir);
      var wide := allowZip64 && (force || x.fileSize * 105 > ZIP64_LIMIT * 100);
      if !allowZip64 && (|filelist| >= ZIP_FILECOUNT_LIMIT ||
                         x.fileSize > ZIP64_LIMIT || x.headerOffset > ZIP64_LIMIT) {
        return Err(LargeZipFile);
      }
      var first := MakeHeader(x, wide);
      if first.Err? {
        return Err(first.error);
      }
      return Ok((first.value.0, first.value.1, wide));
    }

    /** open(zinfo, 'w'): what is written from now on is the data of a new member. */
    method OpenToWrite(z: ZipInfo, force: bool) returns (r: Result<(), ZipError>)
      requires Valid() && ValidInfo(z.(headerOffset := 0))
      modifies this
      ensures Valid() && members == old(members) && comment == old(comment) && closed == old(closed)
      ensures startDir == old(startDir)
      ensures old(closed || writing) || (force && !allowZip64) ==> r == Err(ValueError)
      ensures !old(closed || writing) && (allowZip64 || !force) ==>
                OpenFault(z, force, allowZip64, |members|, startDir) == if r.Ok? then None else Some(r.error)
      ensures r.Ok? ==> writing && written == [] && zip64 == UsesZip64(allowZip64, force, z.fileSize)
                        && zinfo == HeaderVersions(Prepared(z, startDir))
      ensures r.Err? ==> writing == old(writing) && content == old(content)
      ensures r.Ok? ==> |content| == Max(old(|content|), pos) && startDir <= pos
    {
      if closed || (force && !allowZip64) || writing {
        return Err(ValueError);
      }
      pos := startDir;
      var first := Prepare(z, force);
      if first.Err? {
        return Err(first.error);
      }
      Start(first.value.0, first.value.1, first.value.2);
      return Ok(());
    }

    /** write: the data goes on, and so do its length and its checksum. */
    method Write(data: seq<byte>) returns (r: Result<nat, ZipError>)
      requires Valid() && (writing ==> fileSize + |data| <= MAX64)
      modifies this`content, this`pos, this`fileSize, this`crc, this`written
      ensures Valid()
      ensures r == if writing then Ok(|data|) else Err(ValueError)
      ensures writing ==> written == old(written) + data
      ensures !writing ==> content == old(content)
      ensures writing ==> |content| == Max(old(|content|), pos) && pos == old(pos) + |data|
    {
      r := Err(ValueError);
      if writing {
        Put(data);
        r := Ok(|data|);
      }
    }

    method Put(data: seq<byte>)
      requires Counted() && fileSize + |data| <= MAX64
      modifies this`content, this`pos, this`fileSize, this`crc, this`written
      ensures Counted() && written == old(written) + data
      ensures startDir <= |content| && content[..startDir] == old(content)[..startDir]
      ensures |content| == Max(old(|content|), pos) && pos == old(pos) + |data|
    {
      assert Pieces(written, data, 0);
      ghost var c, at := content, pos;
      Associate(header, written, data);
      fileSize := fileSize + |data|;
      crc := crc32(data, crc);
      WriteBytes(data);
      WroteAt(c, at, data, content, startDir);
      written := written + data;
    }

    /** The object gets its sizes and its checksum, and a new header. */
    method Complete() returns (head: seq<byte>, ghost m: Member)
      requires Handle() && (zip64 || fileSize <= ZIP64_LIMIT)
      modifies this`zinfo
      ensures zinfo.headerOffset == startDir && Describes(m, old(zinfo), zip64, written, crc32)
      ensures m == Member(zinfo, zip64, head, written) && |head| == |header| && ValidMember(m, crc32)
    {
      var second := MakeHeader(Sized(zinfo, fileSize, crc), zip64);
      zinfo := second.value.1;
      head, m := second.value.0, Member(second.value.1, zip64, second.value.0, written);
    }

    /** The header is written again, over the first one, and the directory begins after the data from now on. */
    method Rewrite(head: seq<byte>)
      requires |head| == |header| && zinfo.headerOffset == startDir
      requires pos == startDir + |header| + |written| && pos <= |content|
      requires content[startDir..pos] == header + written
      modifies this`content, this`pos, this`startDir
      ensures startDir == old(pos) == pos && startDir <= |content|
      ensures content[..startDir] == old(content)[..old(startDir)] + (head + written)
      ensures |content| == old(|content|)
    {
      ghost var c, at := content, startDir;
      startDir := pos;
      pos := zinfo.headerOffset;
      WriteBytes(head);
      HeaderReplaced(c, at, header, head, written, startDir, content);
      pos := startDir;
    }

    /** The member is listed. */
    method Append(ghost m: Member)
      requires m.info == zinfo && Named()
      modifies this`filelist, this`nameToInfo, this`members
      ensures Named() && members == old(members) + [m]
    {
      InfosAppend(members, m);
      ByNameAppend(filelist, zinfo);
      filelist := filelist + [zinfo];
      nameToInfo := nameToInfo[zinfo.name := zinfo];
      members := members + [m];
    }

    /** The second header is written, and the member listed. */
    method List(head: seq<byte>, ghost m: Member)
      requires Listed() && Stored() && |head| == |header| && m == Member(zinfo, zip64, head, written)
      requires ValidMember(m, crc32) && zinfo.headerOffset == startDir
      requires pos == startDir + |header| + |written| && pos <= |content|
      requires content[startDir..pos] == header + written
      modifies this`content, this`pos, this`startDir, this`filelist, this`nameToInfo, this`members
      ensures Listed() && Stored() && members == old(members) + [m]
      ensures |content| == old(|content|) && startDir == old(pos)
    {
      MembersAppend(base, members, crc32, m);
      Rewrite(head);
      Append(m);
    }

    method Finish()
      requires Listed() && Stored() && Handle() && (zip64 || fileSize <= ZIP64_LIMIT)
      modifies this`zinfo, this`content, this`pos, this`startDir, this`filelist, this`nameToInfo, this`members
      ensures Listed() && Stored()
      ensures |members| == |old(members)| + 1 && members[..|old(members)|] == old(members)
      ensures Describes(members[|old(members)|], old(zinfo), zip64, written, crc32)
      ensures |content| == old(|content|) && startDir == old(pos)
    {
      var head, m := Complete();
      List(head, m);
    }

    /**
     close of the handle: the member is listed with its data, its length and its checksum, unless it turned
     out too large for the kind of header it has; then nothing is listed and start_dir stays.
     */
    method CloseMember() returns (r: Result<(), ZipError>)
      requires Valid()
      modifies this`writing, this`zinfo, this`content, this`pos, this`startDir, this`filelist, this`nameToInfo,
        this`members
      ensures Valid() && !writing
      ensures r == if old(writing && !zip64 && |written| > ZIP64_LIMIT) then Err(RuntimeError) else Ok(())
      ensures r.Err? || !old(writing) ==>
              members == old(members) && startDir == old(startDir) && content == old(content)
      ensures r.Ok? && old(writing) ==> |members| == |old(members)| + 1 && members[..|old(members)|] == old(members)
      ensures r.Ok? && old(writing) ==> Describes(members[|old(members)|], old(zinfo), zip64, written, crc32)
      ensures r.Ok? && old(writing) ==> |content| == old(|content|) && startDir == old(pos)
    {
      r := Ok(());
      if writing {
        writing := false;
        if !zip64 && fileSize > ZIP64_LIMIT {
          r := Err(RuntimeError);
        } else {
          Finish();
        }
      }
    }

    /** A write that goes on from an earlier one. */
    method WriteMore(ghost c: seq<byte>, ghost at: nat, ghost before: seq<byte>, data: seq<byte>)
      requires Wrote(c, at, before, content) && pos == at + |before| <= |content|
      modifies this`content, this`pos
      ensures Wrote(c, at, before + data, content) && pos == at + |before + data| <= |content|
    {
      ghost var mid := content;
      WriteBytes(data);
      WroteMore(c, at, before, mid, data, content);
    }

    /** The loop of _write_end_record: one entry after the other, until one does not fit. */
    method WriteEntries(fits: ZipInfo -> bool, entry: ZipInfo -> seq<byte>) returns (fit: bool)
      requires pos == startDir <= |content|
      modifies this`content, this`pos
      ensures fit <==> forall i :: 0 <= i < |filelist| ==> fits(filelist[i])
      ensures startDir <= |content| && content[..startDir] == old(content)[..startDir]
      ensures fit ==> Wrote(old(content), startDir, Flat(entry, filelist), content)
                      && pos == startDir + |Flat(entry, filelist)| <= |content|
    {
      ghost var c, done: seq<byte> := content, [];
      WroteNothing(content, startDir);
      for i := 0 to |filelist|
        invariant forall k :: 0 <= k < i ==> fits(filelist[k])
        invariant Wrote(c, startDir, done, content) && pos == startDir + |done| <= |content|
        invariant done == Flat(entry, filelist[..i])
      {
        if !fits(filelist[i]) {
          WroteAt(c, startDir, done, content, startDir);
          return false;
        }
        FlatPrefix(entry, filelist, i);
        WriteMore(c, startDir, done, entry(filelist[i]));
        done := done + entry(filelist[i]);
      }
      assert filelist[..|filelist|] == filelist;
      WroteAt(c, startDir, done, content, startDir);
      return true;
    }

    method WriteDirectory() returns (fit: bool)
      requires pos == startDir <= |content|
      modifies this`content, this`pos
      ensures fit == AllFit(filelist)
      ensures startDir <= |content| && content[..startDir] == old(content)[..startDir]
      ensures fit ==> Wrote(old(content), startDir, Directory(filelist), content)
                      && pos == startDir + |Directory(filelist)| <= |content|
    {
      fit := WriteEntries(EntryFits, EntryBytes);
    }

    /** The end records, with those of ZIP64 where they are needed. */
    method WriteEnd(count: nat, size: nat, offset: nat, ghost c: seq<byte>, ghost at: nat, ghost before: seq<byte>)
      requires Wrote(c, at, before, content) && pos == at + |before| <= |content|
      modifies this`content, this`pos
      ensures Wrote(c, at, before + EndRecords(count, size, offset, comment), content)
      ensures pos == at + |before + EndRecords(count, size, offset, comment)|
    {
      ghost var wide := Zip64Records(count, size, offset);
      if NeedsZip64(count, size, offset) {
        var record, locator :=
          PackEnd64(End64Values(count, size, offset)), PackLocator64(Locator64Values(offset + size));
        WriteMore(c, at, before, record);
        WriteMore(c, at, before + record, locator);
        Associate(before, record, locator);
      } else {
        assert before + wide == before;
      }
      var last := PackEnd(EndValues(count, size, offset, comment));
      WriteMore(c, at, before + wide, last);
      WriteMore(c, at, before + wide + last, comment);
      Associate(before + wide, last, comment);
      Associate(before, wide, last + comment);
    }

    /** The exception, if any, that closing comes to when no member is open. */
    function CloseFault(): Option<ZipError>
      reads this`filelist, this`startDir, this`comment
    {
      if !AllFit(filelist) then Some(StructError)
      else EndFault(|filelist|, |Directory(filelist)|, startDir, comment, allowZip64)
    }

    /** _write_end_record */
    method WriteEndRecord() returns (r: Result<(), ZipError>)
      requires pos == startDir <= |content|
      modifies this`content, this`pos
      ensures CloseFault() == if r.Ok? then None else Some(r.error)
      ensures startDir <= |content| && content[..startDir] == old(content)[..startDir]
      ensures r.Ok? ==> Wrote(old(content), startDir, Ending(), content) && pos == startDir + |Ending()|
    {
      var fit := WriteDirectory();
      var fault := if fit then EndFault(|filelist|, pos - startDir, startDir, comment, allowZip64)
                   else Some(StructError);
      if fault.Some? {
        r := Err(fault.value);
      } else {
        WriteEnd(|filelist|, pos - startDir, startDir, old(content), startDir, Directory(filelist));
        WroteAt(old(content), startDir, Ending(), content, startDir);
        r := Ok(());
      }
    }

    /** What comes after the members. */
    function Ending(): seq<byte>
      reads this`filelist, this`startDir, this`comment
    {
      Directory(filelist) + EndRecords(|filelist|, |Directory(filelist)|, startDir, comment)
    }

    /** What the stream holds once the archive is closed. */
    ghost predicate Sealed(before: seq<byte>)
      reads this`content, this`pos, this`members, this`comment
    {
      && pos == |Archive(base, members, comment)|
      && content == Archive(base, members, comment) + Drop(before, pos)
    }

    lemma SealedBy(before: seq<byte>)
      requires Stored() && Listed() && startDir <= |before| && before[..startDir] == content[..startDir]
      requires Wrote(before, startDir, Ending(), content) && pos == startDir + |Ending()|
      ensures Sealed(before)
    {
      ShowWrote(before, startDir, Ending(), content);
      ClosedContent(before, base, members, comment);
    }

    /** A stream that held nothing after the members is the archive, whole. */
    lemma NoTail(before: seq<byte>)
      requires Sealed(before) && Listed() && |before| <= startDir
      ensures content == Archive(base, members, comment)
    {
      var archive := Archive(base, members, comment);
      assert startDir <= |archive|;
      assert Drop(before, |archive|) == [];
    }

    /**
     close: the directory and the end records follow the members. What the stream held after them before
     stays: it is never cut.
     */
    method Close() returns (r: Result<(), ZipError>)
      requires Valid()
      modifies this`content, this`pos, this`closed
      ensures Valid()
      ensures old(closed) && !writing ==> r == Ok(()) && content == old(content)
      ensures writing ==> r == Err(ValueError) && content == old(content)
      ensures !old(closed) && !writing ==> closed && CloseFault() == if r.Ok? then None else Some(r.error)
      ensures !old(closed) && r.Ok? ==> Sealed(old(content))
    {
      r := Ok(());
      if writing {
        r := Err(ValueError);
      } else if !closed {
        r := Finalize();
      }
    }

    method Finalize() returns (r: Result<(), ZipError>)
      requires Listed() && Stored() && !closed
      modifies this`content, this`pos, this`closed
      ensures Stored() && closed
      ensures CloseFault() == if r.Ok? then None else Some(r.error)
      ensures r.Ok? ==> Sealed(old(content))
    {
      closed := true;
      pos := startDir;
      r := WriteEndRecord();
      if r.Ok? {
        SealedBy(old(content));
      }
    }

    /**
     writestr: the name and the data are listed as a member, or nothing is. Too much data for a header that
     was made without ZIP64 never shows only when the member is closed.
     */
    method WriteStr(name: seq<byte>, data: seq<byte>, now: DateTime) returns (r: Result<(), ZipError>)
      requires Valid() && ValidName(name) && ValidTime(now) && |data| <= MAX64
      modifies this
      ensures Valid() && closed == old(closed) && comment == old(comment) && writing == old(writing)
      ensures !old(closed) && !old(writing) ==>
                StrFault(name, |data|, now, allowZip64, |old(members)|, old(startDir)) ==
                if r.Ok? then None else Some(r.error)
      ensures old(closed || writing) ==> r.Err?
      ensures r.Err? ==> members == old(members) && startDir == old(startDir) && content == old(content)
      ensures r.Ok? ==> |members| == |old(members)| + 1 && members[..|old(members)|] == old(members)
      ensures r.Ok? ==> IsWritten(members[|old(members)|], name, data, now, old(startDir), allowZip64, crc32)
      ensures r.Ok? ==> old(startDir) <= startDir && |content| == Max(old(|content|), startDir)
    {
      if now.year < 1980 {
        r := Err(ValueError);
      } else if TruncateAtNul(name) == [] {
        r := Err(IndexError);
      } else if closed || writing {
        r := Err(ValueError);
      } else {
        StrInfoValid(name, |data|, now);
        r := Store(StrInfo(name, |data|, now), data);
        if r.Ok? {
          StrMember(members[|old(members)|], name, data, now, old(startDir), allowZip64, crc32);
        }
      }
    }

    /** Opening a member of known size, writing it and closing it. */
    method Store(z: ZipInfo, data: seq<byte>) returns (r: Result<(), ZipError>)
      requires Valid() && !closed && !writing && ValidInfo(z.(headerOffset := 0))
      requires z.fileSize == |data| <= MAX64
      modifies this
      ensures Valid() && !closed && comment == old(comment) && !writing
      ensures OpenFault(z, false, allowZip64, |old(members)|, old(startDir)) == if r.Ok? then None else Some(r.error)
      ensures r.Err? ==> members == old(members) && startDir == old(startDir) && content == old(content)
      ensures r.Ok? ==> |members| == |old(members)| + 1 && members[..|old(members)|] == old(members)
      ensures r.Ok? ==> Describes(members[|old(members)|], HeaderVersions(Prepared(z, old(startDir))),
                                  UsesZip64(allowZip64, false, z.fileSize), data, crc32)
      ensures r.Ok? ==> old(startDir) <= startDir && |content| == Max(old(|content|), startDir)
    {
      r := OpenToWrite(z, false);
      if r.Ok? {
        Fill(data);
      }
    }

    method Fill(data: seq<byte>)
      requires Valid() && writing && written == [] && |data| <= MAX64 && (zip64 || |data| <= ZIP64_LIMIT)
      modifies this`content, this`pos, this`fileSize, this`crc, this`written, this`writing, this`zinfo, this`startDir,
        this`filelist, this`nameToInfo, this`members
      ensures Listed() && Stored() && !writing
      ensures |members| == |old(members)| + 1 && members[..|old(members)|] == old(members)
      ensures Describes(members[|old(members)|], old(zinfo), zip64, written, crc32) && written == data
      ensures |content| == Max(old(|content|), startDir) && startDir == old(pos) + |data|
    {
      ghost var z, ms := zinfo, members;
      var n := Write(data);
      assert written == data && zinfo == z && members == ms;
      var r := CloseMember();
      assert r.Ok?;
    }
  }
}
