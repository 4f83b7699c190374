/** Member records: the local header and the central directory entry of a stored member, written and read. */
module ZipRecords {
  import opened Bits
  import opened Wrappers
  import opened ZipStruct
  import opened ZipExtra

  const ZIP64_VERSION := 45
  const MAX_EXTRACT_VERSION := 63

  datatype DateTime = DateTime(year: nat, month: nat, day: nat, hour: nat, minute: nat, second: nat)

  datatype ZipInfo = ZipInfo(
    origName: seq<byte>, name: seq<byte>, date: DateTime, compressType: nat, comment: seq<byte>, extra: seq<byte>,
    createSystem: nat, createVersion: nat, extractVersion: nat, reserved: nat, flagBits: nat, volume: nat,
    internalAttr: nat, externalAttr: nat, headerOffset: int, crc: nat, compressSize: nat, fileSize: nat)

  datatype ZipError =
    | BadZipFile
    | LargeZipFile
    | StructError
    | NotImplemented
    | ValueError
    | RuntimeError
    | KeyError
    | IndexError
    | EndOfFile

  /** A time that ZipInfo takes. Years after 2107 do not fit the DOS field: packing them fails. */
  predicate ValidDate(d: DateTime) {
    1980 <= d.year && d.month < 16 && d.day < 32 && d.hour < 24 && d.minute < 60 && d.second < 64
  }

  function DosDate(d: DateTime): nat
    requires ValidDate(d)
  {
    (d.year - 1980) * 512 + d.month * 32 + d.day
  }

  function DosTime(d: DateTime): nat {
    d.hour * 2048 + d.minute * 32 + d.second / 2
  }

  function FromDos(date: nat, time: nat): DateTime {
    DateTime(date / 512 + 1980, date / 32 % 16, date % 32, time / 2048, time / 32 % 64, time % 32 * 2)
  }

  lemma SplitDate(y: nat, m: nat, d: nat)
    requires m < 16 && d < 32
    ensures (y * 512 + m * 32 + d) / 512 == y
    ensures (y * 512 + m * 32 + d) / 32 % 16 == m
    ensures (y * 512 + m * 32 + d) % 32 == d
  {
    var q := y * 16 + m;
    assert y * 512 + m * 32 + d == q * 32 + d;
    assert (q * 32 + d) / 32 == q && (q * 32 + d) % 32 == d;
  }

  lemma SplitTime(h: nat, m: nat, s: nat)
    requires m < 64 && s < 32
    ensures (h * 2048 + m * 32 + s) / 2048 == h
    ensures (h * 2048 + m * 32 + s) / 32 % 64 == m
    ensures (h * 2048 + m * 32 + s) % 32 == s
  {
    var q := h * 64 + m;
    assert h * 2048 + m * 32 + s == q * 32 + s;
    assert (q * 32 + s) / 32 == q && (q * 32 + s) % 32 == s;
  }

  /** Dates survive, with the seconds rounded down to even ones. */
  lemma DateRoundTrip(d: DateTime)
    requires ValidDate(d)
    ensures FromDos(DosDate(d), DosTime(d)) == d.(second := d.second / 2 * 2)
  {
    SplitDate(d.year - 1980, d.month, d.day);
    SplitTime(d.hour, d.minute, d.second / 2);
  }

  function Max(a: nat, b: nat): nat {
    if a > b then a else b
  }

  function Min(a: nat, b: nat): nat {
    if a < b then a else b
  }

  function Take(s: seq<byte>, n: nat): seq<byte> {
    if n <= |s| then s[..n] else s
  }

  function Drop(s: seq<byte>, n: nat): seq<byte> {
    if n <= |s| then s[n..] else []
  }

  lemma TakeDrop(a: seq<byte>, b: seq<byte>)
    ensures Take(a + b, |a|) == a && Drop(a + b, |a|) == b
  {
  }

  function TruncateAtNul(name: seq<byte>): (r: seq<byte>)
    ensures 0 !in r && r <= name && (0 !in name ==> r == name)
    ensures forall b :: b in r ==> b in name
  {
    if name == [] || name[0] == 0 then [] else [name[0]] + TruncateAtNul(name[1..])
  }

  /** Members as this model handles them: stored, with an ASCII name without NUL, and a DOS date. */
  predicate ValidInfo(z: ZipInfo) {
    && z.compressType == 0 && ValidDate(z.date) && z.headerOffset >= 0
    && forall b :: b in z.name ==> 0 < b < 128
  }

  function NumbersOf(z: ZipInfo): Numbers
    requires z.headerOffset >= 0
  {
    Numbers(z.fileSize, z.compressSize, z.headerOffset)
  }

  // The local header.

  function LocalExtra(z: ZipInfo, zip64: bool): seq<byte> {
    z.extra + if zip64 then Zip64Field([z.fileSize, z.compressSize]) else []
  }

  predicate Large(z: ZipInfo) {
    z.fileSize > ZIP64_LIMIT || z.compressSize > ZIP64_LIMIT
  }

  function LocalValues(z: ZipInfo, zip64: bool): (vs: seq<nat>)
    requires ValidInfo(z)
    ensures |vs| == |LOCAL|
  {
    [LOCAL_SIGNATURE, Max(if Large(z) then ZIP64_VERSION else 0, z.extractVersion), z.reserved, z.flagBits,
     z.compressType, DosTime(z.date), DosDate(z.date), z.crc, if Large(z) then MAX32 else z.compressSize,
     if Large(z) then MAX32 else z.fileSize, |z.name|, |LocalExtra(z, zip64)|]
  }

  /** The object after FileHeader: its versions may have gone up. */
  function HeaderVersions(z: ZipInfo): ZipInfo {
    var min := if Large(z) then ZIP64_VERSION else 0;
    z.(extractVersion := Max(min, z.extractVersion), createVersion := Max(min, z.createVersion))
  }

  function LocalHeader(z: ZipInfo, zip64: bool): (s: seq<byte>)
    requires ValidInfo(z)
  {
    PackLocal(LocalValues(z, zip64)) + z.name + LocalExtra(z, zip64)
  }

  /** When every field of the header fits. */
  predicate LocalFits(z: ZipInfo, zip64: bool)
    requires ValidInfo(z)
  {
    && z.extractVersion < 0x100 && z.reserved < 0x100
    && z.flagBits < 0x1_0000 && z.date.year <= 2107 && z.crc <= MAX32
    && |z.name| < 0x1_0000 && |z.extra| + (if zip64 then 20 else 0) < 0x1_0000
  }

  lemma DosFits(d: DateTime)
    requires ValidDate(d)
    ensures DosTime(d) < 0x1_0000 && (DosDate(d) < 0x1_0000 <==> d.year <= 2107)
  {
  }

  lemma FitsTwelve(f: Format, v: seq<nat>)
    requires |f| == |v| == 12
    ensures Fits(f, v) <==>
              && v[0] < Pow256(f[0]) && v[1] < Pow256(f[1]) && v[2] < Pow256(f[2]) && v[3] < Pow256(f[3])
              && v[4] < Pow256(f[4]) && v[5] < Pow256(f[5]) && v[6] < Pow256(f[6]) && v[7] < Pow256(f[7])
              && v[8] < Pow256(f[8]) && v[9] < Pow256(f[9]) && v[10] < Pow256(f[10]) && v[11] < Pow256(f[11])
  {
  }

  lemma LocalFitsExactly(z: ZipInfo, zip64: bool)
    requires ValidInfo(z)
    ensures LocalFits(z, zip64) <==> Fits(LOCAL, LocalValues(z, zip64))
  {
    FitsTwelve(LOCAL, LocalValues(z, zip64));
    Powers();
    DosFits(z.date);
  }

  /** FileHeader(zip64): the header bytes and the changed object, or the exception. */
  function FileHeader(z: ZipInfo, zip64: bool): Result<(seq<byte>, ZipInfo), ZipError>
    requires ValidInfo(z)
  {
    if zip64 && (z.fileSize > MAX64 || z.compressSize > MAX64) then Err(StructError)
    else if Large(z) && !zip64 then Err(LargeZipFile)
    else if !LocalFits(z, zip64) then Err(StructError)
    else Ok((LocalHeader(z, zip64), HeaderVersions(z)))
  }

  function HeaderSize(z: ZipInfo, zip64: bool): nat {
    30 + |z.name| + |z.extra| + if zip64 then 20 else 0
  }

  /** The length of the header does not depend on sizes and checksum: rewriting it hits nothing else. */
  lemma HeaderLength(z: ZipInfo, zip64: bool)
    requires ValidInfo(z)
    ensures |LocalHeader(z, zip64)| == HeaderSize(z, zip64)
  {
  }

  /** The bytes are the header of the object. The verifier looks into this only for bytes that are shown. */
  ghost predicate IsHeader(header: seq<byte>, z: ZipInfo, zip64: bool) {
    forall h {:trigger Shown(h)} :: Shown(h) && h == header ==> ValidInfo(z) && h == LocalHeader(z, zip64)
  }

  lemma ShowHeader(header: seq<byte>, z: ZipInfo, zip64: bool)
    ensures IsHeader(header, z, zip64) <==> ValidInfo(z) && header == LocalHeader(z, zip64)
  {
    assert Shown(header);
  }

  /** The fields of a local header, or the exception. */
  function ReadLocal(file: seq<byte>, offset: nat): (r: Result<seq<nat>, ZipError>)
    ensures r.Ok? ==> |r.value| == |LOCAL|
  {
    if offset + 30 > |file| then Err(BadZipFile)
    else
      var vs := UnpackLocal(file[offset..offset + 30]);
      if vs[0] != LOCAL_SIGNATURE then Err(BadZipFile) else Ok(vs)
  }

  /** The name after the header, and where the data begins: a file that ends early cuts both. */
  function LocalName(file: seq<byte>, offset: nat, vs: seq<nat>): seq<byte>
    requires |vs| == |LOCAL|
  {
    Take(Drop(file, offset + 30), vs[10])
  }

  function DataStart(file: seq<byte>, offset: nat, vs: seq<nat>): nat
    requires |vs| == |LOCAL|
  {
    Min(offset + 30 + vs[10] + vs[11], |file|)
  }

  lemma SliceOf(a: seq<byte>, b: seq<byte>, c: seq<byte>)
    ensures (a + b + c)[|a|..|a| + |b|] == b
  {
  }

  /** A header that was packed gives its fields and its name back, and leads to the byte after it. */
  lemma HeaderAt(
      file: seq<byte>, before: seq<byte>, z: ZipInfo, zip64: bool, header: seq<byte>, after: seq<byte>)
    requires ValidInfo(z) && LocalFits(z, zip64) && IsHeader(header, z, zip64)
    requires file == before + header + after
    ensures ReadLocal(file, |before|) == Ok(LocalValues(z, zip64))
    ensures LocalName(file, |before|, LocalValues(z, zip64)) == z.name
    ensures DataStart(file, |before|, LocalValues(z, zip64)) == |before| + |header|
  {
    var vs := LocalValues(z, zip64);
    ShowHeader(header, z, zip64);
    HeaderSlices(before, PackLocal(vs), z.name, LocalExtra(z, zip64), after);
    HeaderFields(z, zip64);
    LocalFitsExactly(z, zip64);
    UnpackLocalOf(vs);
  }

  lemma HeaderFields(z: ZipInfo, zip64: bool)
    requires ValidInfo(z)
    ensures var vs := LocalValues(z, zip64);
            vs[0] == LOCAL_SIGNATURE && vs[10] == |z.name| && vs[11] == |LocalExtra(z, zip64)|
  {
  }

  lemma HeaderSlices(before: seq<byte>, packed: seq<byte>, name: seq<byte>, extra: seq<byte>, after: seq<byte>)
    requires |packed| == 30
    ensures var file := before + (packed + name + extra) + after;
            && file[|before|..|before| + 30] == packed
            && Take(Drop(file, |before| + 30), |name|) == name
  {
    var file := before + (packed + name + extra) + after;
    assert file == before + packed + (name + extra + after);
    SliceOf(before, packed, name + extra + after);
    assert file == (before + packed) + (name + (extra + after));
    TakeDrop(before + packed, name + (extra + after));
    TakeDrop(name, extra + after);
  }

  // The central directory entry.

  function MinVersion(z: ZipInfo): nat
    requires z.headerOffset >= 0
  {
    if Escaped(NumbersOf(z)) == [] then 0 else ZIP64_VERSION
  }

  function CentralValues(z: ZipInfo): (vs: seq<nat>)
    requires ValidInfo(z)
    ensures |vs| == |CENTRAL|
  {
    CentralHead(z) + CentralMiddle(z) + CentralTail(z)
  }

  function CentralHead(z: ZipInfo): (vs: seq<nat>)
    requires z.headerOffset >= 0
    ensures |vs| == 6
  {
    [CENTRAL_SIGNATURE, Max(MinVersion(z), z.createVersion), z.createSystem, Max(MinVersion(z), z.extractVersion),
     z.reserved, z.flagBits]
  }

  function CentralMiddle(z: ZipInfo): (vs: seq<nat>)
    requires ValidInfo(z)
    ensures |vs| == 6
  {
    var n := Narrow(NumbersOf(z));
    [z.compressType, DosTime(z.date), DosDate(z.date), z.crc, n.compressSize, n.fileSize]
  }

  function CentralTail(z: ZipInfo): (vs: seq<nat>)
    requires z.headerOffset >= 0
    ensures |vs| == 7
  {
    [|z.name|, |CentralExtra(z.extra, NumbersOf(z))|, |z.comment|, 0, z.internalAttr, z.externalAttr,
     Narrow(NumbersOf(z)).headerOffset]
  }

  /** When every field of the entry fits. */
  predicate CentralFits(z: ZipInfo)
    requires ValidInfo(z)
  {
    && z.createVersion < 0x100 && z.createSystem < 0x100 && z.extractVersion < 0x100 && z.reserved < 0x100
    && z.flagBits < 0x1_0000 && z.date.year <= 2107 && z.crc <= MAX32
    && |z.name| < 0x1_0000 && |CentralExtra(z.extra, NumbersOf(z))| < 0x1_0000 && |z.comment| < 0x1_0000
    && z.internalAttr < 0x1_0000 && z.externalAttr <= MAX32
  }

  lemma FitsConcat(f: Format, g: Format, v: seq<nat>, w: seq<nat>)
    requires |f| == |v| && |g| == |w|
    ensures Fits(f + g, v + w) <==> Fits(f, v) && Fits(g, w)
  {
    if Fits(f + g, v + w) {
      forall i | 0 <= i < |f| ensures v[i] < Pow256(f[i]) {
        assert (v + w)[i] < Pow256((f + g)[i]);
      }
      forall i | 0 <= i < |g| ensures w[i] < Pow256(g[i]) {
        assert (v + w)[|f| + i] < Pow256((f + g)[|f| + i]);
      }
    }
  }

  lemma FitsSix(f: Format, v: seq<nat>)
    requires |f| == |v| == 6
    ensures Fits(f, v) <==>
              && v[0] < Pow256(f[0]) && v[1] < Pow256(f[1]) && v[2] < Pow256(f[2])
              && v[3] < Pow256(f[3]) && v[4] < Pow256(f[4]) && v[5] < Pow256(f[5])
  {
  }

  lemma FitsSeven(f: Format, v: seq<nat>)
    requires |f| == |v| == 7
    ensures Fits(f, v) <==>
              && v[0] < Pow256(f[0]) && v[1] < Pow256(f[1]) && v[2] < Pow256(f[2]) && v[3] < Pow256(f[3])
              && v[4] < Pow256(f[4]) && v[5] < Pow256(f[5]) && v[6] < Pow256(f[6])
  {
  }

  lemma CentralParts(z: ZipInfo)
    requires ValidInfo(z)
    ensures Fits(CENTRAL, CentralValues(z)) <==>
              Fits(CENTRAL_HEAD, CentralHead(z)) && Fits(CENTRAL_MIDDLE, CentralMiddle(z))
              && Fits(CENTRAL_TAIL, CentralTail(z))
  {
    FitsConcat(CENTRAL_HEAD + CENTRAL_MIDDLE, CENTRAL_TAIL, CentralHead(z) + CentralMiddle(z), CentralTail(z));
    FitsConcat(CENTRAL_HEAD, CENTRAL_MIDDLE, CentralHead(z), CentralMiddle(z));
  }

  lemma CentralFitsExactly(z: ZipInfo)
    requires ValidInfo(z)
    ensures CentralFits(z) <==> Fits(CENTRAL, CentralValues(z))
  {
    CentralParts(z);
    HeadFits(z);
    MiddleFits(z);
    TailFits(z);
  }

  lemma HeadFits(z: ZipInfo)
    requires z.headerOffset >= 0
    ensures Fits(CENTRAL_HEAD, CentralHead(z)) <==>
              && z.createVersion < 0x100 && z.createSystem < 0x100 && z.extractVersion < 0x100 && z.reserved < 0x100
              && z.flagBits < 0x1_0000
  {
    FitsSix(CENTRAL_HEAD, CentralHead(z));
    Powers();
  }

  lemma MiddleFits(z: ZipInfo)
    requires ValidInfo(z)
    ensures Fits(CENTRAL_MIDDLE, CentralMiddle(z)) <==> z.date.year <= 2107 && z.crc <= MAX32
  {
    FitsSix(CENTRAL_MIDDLE, CentralMiddle(z));
    Powers();
    DosFits(z.date);
  }

  lemma TailFits(z: ZipInfo)
    requires z.headerOffset >= 0
    ensures Fits(CENTRAL_TAIL, CentralTail(z)) <==>
              && |z.name| < 0x1_0000 && |CentralExtra(z.extra, NumbersOf(z))| < 0x1_0000 && |z.comment| < 0x1_0000
              && z.internalAttr < 0x1_0000 && z.externalAttr <= MAX32
  {
    FitsSeven(CENTRAL_TAIL, CentralTail(z));
    Powers();
  }

  function CentralEntry(z: ZipInfo): seq<byte>
    requires ValidInfo(z)
  {
    PackCentral(CentralValues(z)) + z.name + CentralExtra(z.extra, NumbersOf(z)) + z.comment
  }

  /** The object of a directory entry, before its extra data is looked at. */
  function FromValues(vs: seq<nat>, name: seq<byte>, extra: seq<byte>, comment: seq<byte>): ZipInfo
    requires |vs| == |CENTRAL|
  {
    ZipInfo(name, TruncateAtNul(name), FromDos(vs[8], vs[7]), vs[6], comment, extra, vs[2], vs[1], vs[3], vs[4], vs[5],
            vs[15], vs[16], vs[17], vs[18], vs[9], vs[10], vs[11])
  }

  function EntryObject(vs: seq<nat>, d1: seq<byte>): ZipInfo
    requires |vs| == |CENTRAL|
  {
    var d2 := Drop(d1, vs[12]);
    FromValues(vs, Take(d1, vs[12]), Take(d2, vs[13]), Take(Drop(d2, vs[13]), vs[14]))
  }

  /** What a directory entry comes to, given its fields and the bytes after them: the object, and its length. */
  function ReadEntry(vs: seq<nat>, d1: seq<byte>, concat: int): Result<(ZipInfo, nat), ZipError>
    requires |vs| == |CENTRAL|
  {
    var z := EntryObject(vs, d1);
    if vs[0] != CENTRAL_SIGNATURE then Err(BadZipFile)
    else if z.extractVersion > MAX_EXTRACT_VERSION then Err(NotImplemented)
    else
      match DecodeExtra(Numbers(z.fileSize, z.compressSize, vs[18]), z.extra)
      case Err(_) => Err(BadZipFile)
      case Ok(n) =>
        Ok((z.(fileSize := n.fileSize, compressSize := n.compressSize, headerOffset := n.headerOffset + concat),
            46 + vs[12] + vs[13] + vs[14]))
  }

  /** One round of the loop of _RealGetContents on the data left. */
  function DecodeEntry(data: seq<byte>, concat: int): Result<(ZipInfo, nat), ZipError> {
    if |data| < 46 then Err(BadZipFile) else ReadEntry(UnpackCentral(data[..46]), data[46..], concat)
  }

  /** What a reader sees of a member: the extra data and versions as written, the offset moved, even seconds. */
  function Seen(z: ZipInfo, concat: int): ZipInfo
    requires z.headerOffset >= 0
  {
    z.(origName := z.name,
       extra := CentralExtra(z.extra, NumbersOf(z)),
       createVersion := Max(MinVersion(z), z.createVersion),
       extractVersion := Max(MinVersion(z), z.extractVersion),
       volume := 0,
       date := z.date.(second := z.date.second / 2 * 2),
       headerOffset := z.headerOffset + concat)
  }

  /** The extra field and the versions are such that a reader accepts them; sizes and offsets are 64-bit. */
  predicate Decodable(z: ZipInfo) {
    && ValidInfo(z)
    && z.fileSize <= MAX64 && z.compressSize <= MAX64 && z.headerOffset <= MAX64
    && WellFormed(z.extra) && z.extractVersion <= MAX_EXTRACT_VERSION
  }

  lemma EntrySlices(packed: seq<byte>, name: seq<byte>, extra: seq<byte>, comment: seq<byte>, rest: seq<byte>)
    requires |packed| == 46
    ensures (packed + name + extra + comment + rest)[..46] == packed
    ensures (packed + name + extra + comment + rest)[46..] == name + (extra + (comment + rest))
  {
  }

  /** The object that is made from the fields of an entry, before the ZIP64 values replace the escapes. */
  lemma EntryObjectOf(z: ZipInfo, rest: seq<byte>)
    requires ValidInfo(z)
    ensures var n := Narrow(NumbersOf(z));
            var extra := CentralExtra(z.extra, NumbersOf(z));
            EntryObject(CentralValues(z), z.name + (extra + (z.comment + rest)))
            == Seen(z, 0).(fileSize := n.fileSize, compressSize := n.compressSize, headerOffset := n.headerOffset)
  {
    var extra := CentralExtra(z.extra, NumbersOf(z));
    TakeDrop(z.name, extra + (z.comment + rest));
    TakeDrop(extra, z.comment + rest);
    TakeDrop(z.comment, rest);
    DateRoundTrip(z.date);
  }

  lemma CentralFields(z: ZipInfo)
    requires ValidInfo(z)
    ensures var vs := CentralValues(z);
            && vs[0] == CENTRAL_SIGNATURE && vs[12] == |z.name| && vs[14] == |z.comment|
            && vs[13] == |CentralExtra(z.extra, NumbersOf(z))| && vs[18] == Narrow(NumbersOf(z)).headerOffset
  {
  }

  /** The values that the ZIP64 field replaces are put back into the object. */
  lemma WidenObject(z: ZipInfo, concat: int)
    requires ValidInfo(z)
    ensures var n := Narrow(NumbersOf(z));
            var o := Seen(z, 0).(fileSize := n.fileSize, compressSize := n.compressSize,
                                 headerOffset := n.headerOffset);
            o.(fileSize := z.fileSize, compressSize := z.compressSize, headerOffset := z.headerOffset + concat)
            == Seen(z, concat)
  {
  }

  lemma ReadEntryOf(z: ZipInfo, d1: seq<byte>, rest: seq<byte>, concat: int)
    requires Decodable(z)
    requires d1 == z.name + (CentralExtra(z.extra, NumbersOf(z)) + (z.comment + rest))
    ensures ReadEntry(CentralValues(z), d1, concat).Ok?
    ensures ReadEntry(CentralValues(z), d1, concat).value.0 == Seen(z, concat)
    ensures ReadEntry(CentralValues(z), d1, concat).value.1
         == 46 + |z.name| + |CentralExtra(z.extra, NumbersOf(z))| + |z.comment|
  {
    var vs := CentralValues(z);
    EntryObjectOf(z, rest);
    CentralFields(z);
    NumbersRoundTrip(NumbersOf(z), z.extra);
    WidenObject(z, concat);
    var o := EntryObject(vs, d1);
    assert o.extra == CentralExtra(z.extra, NumbersOf(z));
    assert o.extractVersion <= MAX_EXTRACT_VERSION;
    assert Numbers(o.fileSize, o.compressSize, vs[18]) == Narrow(NumbersOf(z));
  }

  lemma DecodeEntryParts(
      packed: seq<byte>, vs: seq<nat>, name: seq<byte>, extra: seq<byte>, comment: seq<byte>,
      rest: seq<byte>, concat: int)
    requires |packed| == 46 && UnpackCentral(packed) == vs
    ensures DecodeEntry(packed + name + extra + comment + rest, concat)
         == ReadEntry(vs, name + (extra + (comment + rest)), concat)
  {
    EntrySlices(packed, name, extra, comment, rest);
  }

  lemma EntryLength(z: ZipInfo)
    requires ValidInfo(z)
    ensures |CentralEntry(z)| == 46 + |z.name| + |CentralExtra(z.extra, NumbersOf(z))| + |z.comment|
  {
  }

  /** A directory entry that was packed is read back, for every size and offset below 2^64. */
  lemma DecodeEntryOf(z: ZipInfo, concat: int, rest: seq<byte>)
    requires Decodable(z) && CentralFits(z)
    ensures DecodeEntry(CentralEntry(z) + rest, concat).Ok?
    ensures DecodeEntry(CentralEntry(z) + rest, concat).value.0 == Seen(z, concat)
    ensures DecodeEntry(CentralEntry(z) + rest, concat).value.1 == |CentralEntry(z)|
  {
    var vs := CentralValues(z);
    var extra := CentralExtra(z.extra, NumbersOf(z));
    var packed := PackCentral(vs);
    assert CentralEntry(z) == packed + z.name + extra + z.comment;
    CentralFitsExactly(z);
    UnpackCentralOf(vs);
    EntryLength(z);
    DecodeEntryParts(packed, vs, z.name, extra, z.comment, rest, concat);
    ReadEntryOf(z, z.name + (extra + (z.comment + rest)), rest, concat);
  }

  /** A reader sees the other extra fields of a member if and only if the directory entry could keep them. */
  lemma SeenKeepsOthers(z: ZipInfo, concat: int, rest: seq<byte>)
    requires Decodable(z) && CentralFits(z)
    ensures DecodeEntry(CentralEntry(z) + rest, concat).Ok?
    ensures Others(DecodeEntry(CentralEntry(z) + rest, concat).value.0.extra) == Others(z.extra)
       <==> Escaped(NumbersOf(z)) == [] || AfterLast(z.extra) == []
  {
    DecodeEntryOf(z, concat, rest);
    CentralKeepsOthers(z.extra, NumbersOf(z));
  }
}
