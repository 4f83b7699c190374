/** A whole archive of stored members: what a writer has to produce, and what a reader makes of it. */
module ZipArchive {
  import opened Bits
  import opened Wrappers
  import opened ZipStruct
  import opened ZipRecords
  import opened ZipEnd

  /** crc32(data, value) of zlib or binascii: the checksum of data appended to what gave `value`. */
  type Checksum = (seq<byte>, nat) -> nat

  /** Two pieces of data, and the checksum of what came before them. */
  predicate Pieces(a: seq<byte>, b: seq<byte>, v: nat) {
    v <= MAX32
  }

  /** What the program relies on: checksums can be taken piece by piece, from 0, and fit 32 bits. */
  ghost predicate Incremental(crc32: Checksum) {
    && (forall v: nat :: v <= MAX32 ==> crc32([], v) == v)
    && (forall a, b, v {:trigger Pieces(a, b, v)} :: Pieces(a, b, v) ==> crc32(b, crc32(a, v)) == crc32(a + b, v))
    && (forall a, v: nat :: v <= MAX32 ==> crc32(a, v) <= MAX32)
  }

  type Crc32 = f: Checksum | Incremental(f) witness (a: seq<byte>, v: nat) => v

  /** The bytes of all items of a list, one after the other. */
  function Flat<T>(bytes: T -> seq<byte>, ts: seq<T>): seq<byte> {
    if ts == [] then [] else bytes(ts[0]) + Flat(bytes, ts[1..])
  }

  lemma {:induction false} FlatConcat<T>(bytes: T -> seq<byte>, a: seq<T>, b: seq<T>)
    ensures Flat(bytes, a + b) == Flat(bytes, a) + Flat(bytes, b)
  {
    if a == [] {
      assert a + b == b;
    } else {
      assert (a + b)[1..] == a[1..] + b;
      FlatConcat(bytes, a[1..], b);
    }
  }

  lemma FlatOne<T>(bytes: T -> seq<byte>, t: T)
    ensures Flat(bytes, [t]) == bytes(t)
  {
    assert [t][1..] == [];
  }

  lemma {:induction false} FlatAppend<T>(bytes: T -> seq<byte>, a: seq<T>, t: T)
    ensures Flat(bytes, a + [t]) == Flat(bytes, a) + bytes(t)
  {
    FlatConcat(bytes, a, [t]);
    FlatOne(bytes, t);
  }

  lemma FlatPrefix<T>(bytes: T -> seq<byte>, ts: seq<T>, i: nat)
    requires i < |ts|
    ensures Flat(bytes, ts[..i + 1]) == Flat(bytes, ts[..i]) + bytes(ts[i])
  {
    FlatAppend(bytes, ts[..i], ts[i]);
    assert ts[..i + 1] == ts[..i] + [ts[i]];
  }

  /** The list around item i. */
  lemma {:induction false} FlatAt<T>(bytes: T -> seq<byte>, ts: seq<T>, i: nat)
    requires i < |ts|
    ensures Flat(bytes, ts) == Flat(bytes, ts[..i]) + bytes(ts[i]) + Flat(bytes, ts[i + 1..])
  {
    assert ts == ts[..i] + ts[i..];
    FlatConcat(bytes, ts[..i], ts[i..]);
    assert ts[i..][1..] == ts[i + 1..];
    Associate(Flat(bytes, ts[..i]), bytes(ts[i]), Flat(bytes, ts[i + 1..]));
  }

  lemma Associate(a: seq<byte>, b: seq<byte>, c: seq<byte>)
    ensures a + (b + c) == a + b + c
  {
  }

  // Members.

  /** A member as it stands in the archive: its object, its header and its data. */
  datatype Member = Member(info: ZipInfo, zip64: bool, header: seq<byte>, data: seq<byte>)

  /** The object of a closed member agrees with its header and its data. */
  ghost predicate ValidMember(m: Member, crc32: Crc32) {
    && ValidInfo(m.info) && LocalFits(m.info, m.zip64) && IsHeader(m.header, m.info, m.zip64)
    && m.info.fileSize == m.info.compressSize == |m.data| && m.info.crc == crc32(m.data, 0)
    && m.info.flagBits == 0
  }

  ghost predicate AllValid(ms: seq<Member>, crc32: Crc32) {
    forall i :: 0 <= i < |ms| ==> ValidMember(ms[i], crc32)
  }

  function MemberBytes(m: Member): seq<byte> {
    m.header + m.data
  }

  /** Headers and data of all members. */
  function Body(ms: seq<Member>): seq<byte> {
    Flat(MemberBytes, ms)
  }

  /** The members follow one another from position `start`, each where its object says. */
  ghost predicate Placed(ms: seq<Member>, start: nat) {
    forall i :: 0 <= i < |ms| ==> ms[i].info.headerOffset == start + |Body(ms[..i])|
  }

  lemma PlacedAppend(ms: seq<Member>, start: nat, m: Member)
    requires Placed(ms, start) && m.info.headerOffset == start + |Body(ms)|
    ensures Placed(ms + [m], start)
    ensures Body(ms + [m]) == Body(ms) + MemberBytes(m)
  {
    FlatAppend(MemberBytes, ms, m);
    forall i | 0 <= i < |ms + [m]|
      ensures (ms + [m])[i].info.headerOffset == start + |Body((ms + [m])[..i])|
    {
      assert (ms + [m])[..i] == ms[..i];
    }
  }

  function End(m: Member): int {
    m.info.headerOffset + |MemberBytes(m)|
  }

  /** The byte ranges of two members never overlap, and all of them end where the directory may begin. */
  lemma RangesDisjoint(ms: seq<Member>, start: nat, i: nat, j: nat)
    requires Placed(ms, start) && i < |ms| && j < |ms|
    ensures start <= ms[i].info.headerOffset && End(ms[i]) <= start + |Body(ms)|
    ensures i < j ==> End(ms[i]) <= ms[j].info.headerOffset
  {
    FlatAt(MemberBytes, ms, i);
    if i < j {
      FlatAt(MemberBytes, ms[..j], i);
      assert ms[..j][..i] == ms[..i];
    }
  }

  // The central directory.

  function EntryBytes(z: ZipInfo): seq<byte> {
    if ValidInfo(z) then CentralEntry(z) else []
  }

  function Directory(zs: seq<ZipInfo>): seq<byte> {
    Flat(EntryBytes, zs)
  }

  /** The entry of an object can be packed. */
  predicate EntryFits(z: ZipInfo) {
    && ValidInfo(z)
    && z.fileSize <= MAX64 && z.compressSize <= MAX64 && z.headerOffset <= MAX64
    && CentralFits(z)
  }

  predicate All<T>(p: T -> bool, ts: seq<T>) {
    forall i :: 0 <= i < |ts| ==> p(ts[i])
  }

  predicate AllFit(zs: seq<ZipInfo>) {
    All(EntryFits, zs)
  }

  /** The entry can be packed, and versions and extra fields are ones that a reader takes. */
  predicate Readable(z: ZipInfo) {
    EntryFits(z) && Decodable(z)
  }

  predicate AllReadable(zs: seq<ZipInfo>) {
    All(Readable, zs)
  }

  type EntryDecoder = seq<byte> -> Result<(ZipInfo, nat), ZipError>

  function Decoder(concat: int): EntryDecoder {
    data => DecodeEntry(data, concat)
  }

  /** The loop of _RealGetContents: `left` bytes of the directory are still to come. */
  function Entries(decode: EntryDecoder, data: seq<byte>, left: int): Result<seq<ZipInfo>, ZipError>
    decreases left
  {
    if left <= 0 then Ok([])
    else
      match decode(data)
      case Err(e) => Err(e)
      case Ok((z, n)) =>
        if n == 0 then Err(BadZipFile)
        else
          match Entries(decode, Drop(data, n), left - n)
          case Err(e) => Err(e)
          case Ok(zs) => Ok([z] + zs)
  }

  /** The decoder reads the bytes e as the object z, whatever follows them. */
  ghost predicate Decodes(decode: EntryDecoder, e: seq<byte>, z: ZipInfo) {
    e != [] && forall rest :: decode(e + rest) == Ok((z, |e|))
  }

  /** Entries that can be read one by one can be read in a row. */
  lemma {:induction false} EntriesFlat(
      decode: EntryDecoder, bytes: ZipInfo -> seq<byte>, seen: ZipInfo -> ZipInfo, zs: seq<ZipInfo>)
    requires forall i :: 0 <= i < |zs| ==> Decodes(decode, bytes(zs[i]), seen(zs[i]))
    ensures Entries(decode, Flat(bytes, zs), |Flat(bytes, zs)|) == Ok(Map(seen, zs))
  {
    if zs == [] {
    } else {
      var e, rest := bytes(zs[0]), Flat(bytes, zs[1..]);
      assert Decodes(decode, e, seen(zs[0]));
      assert Drop(e + rest, |e|) == rest;
      EntriesFlat(decode, bytes, seen, zs[1..]);
      assert Map(seen, zs) == [seen(zs[0])] + Map(seen, zs[1..]);
    }
  }

  function Map<T, U>(f: T -> U, ts: seq<T>): (us: seq<U>)
    ensures |us| == |ts| && forall i :: 0 <= i < |ts| ==> us[i] == f(ts[i])
  {
    seq(|ts|, i requires 0 <= i < |ts| => f(ts[i]))
  }

  /** What a reader sees of an object when the archive was moved by concat. */
  function Sight(concat: int): ZipInfo -> ZipInfo {
    (z: ZipInfo) => if z.headerOffset >= 0 then Seen(z, concat) else z
  }

  lemma EntryDecodes(z: ZipInfo, concat: int)
    requires Readable(z)
    ensures Decodes(Decoder(concat), EntryBytes(z), Seen(z, concat))
  {
    EntryLength(z);
    forall rest ensures Decoder(concat)(EntryBytes(z) + rest) == Ok((Seen(z, concat), |EntryBytes(z)|)) {
      DecodeEntryOf(z, concat, rest);
    }
  }

  /** The directory that was written is the list that is read. */
  lemma EntriesOf(zs: seq<ZipInfo>, concat: int)
    requires AllReadable(zs)
    ensures Entries(Decoder(concat), Directory(zs), |Directory(zs)|) == Ok(Map(Sight(concat), zs))
  {
    forall i | 0 <= i < |zs| ensures Decodes(Decoder(concat), EntryBytes(zs[i]), Sight(concat)(zs[i])) {
      EntryDecodes(zs[i], concat);
    }
    EntriesFlat(Decoder(concat), EntryBytes, Sight(concat), zs);
  }

  /** NameToInfo: the last entry of a name wins. */
  function ByName(zs: seq<ZipInfo>): (m: map<seq<byte>, ZipInfo>)
    ensures forall n :: n in m ==> m[n] in zs && m[n].name == n
    ensures forall i :: 0 <= i < |zs| ==> zs[i].name in m
  {
    if zs == [] then map[] else ByName(zs[..|zs| - 1])[zs[|zs| - 1].name := zs[|zs| - 1]]
  }

  lemma {:induction false} ByNameLast(zs: seq<ZipInfo>, i: nat)
    requires i < |zs| && forall j :: i < j < |zs| ==> zs[j].name != zs[i].name
    ensures zs[i].name in ByName(zs) && ByName(zs)[zs[i].name] == zs[i]
    decreases |zs|
  {
    if i == |zs| - 1 {
    } else {
      ByNameLast(zs[..|zs| - 1], i);
    }
  }

  /** What a ZipFile holds after _RealGetContents. */
  datatype Listing = Listing(comment: seq<byte>, startDir: nat, infos: seq<ZipInfo>, names: map<seq<byte>, ZipInfo>)

  /** How far the archive was moved from the positions that it names. */
  function Concat(e: EndRecord): int {
    e.location - e.size - e.offset - if e.zip64 then 76 else 0
  }

  function Contents(file: seq<byte>): Result<Listing, ZipError> {
    match FindEnd(file)
    case Err(e) => Err(e)
    case Ok(e) => ContentsAt(file, e)
  }

  /** The directory that the end record names. */
  function ContentsAt(file: seq<byte>, e: EndRecord): Result<Listing, ZipError> {
    var start := e.offset + Concat(e);
    if start < 0 then Err(ValueError)
    else
      match Entries(Decoder(Concat(e)), Take(Drop(file, start), e.size), e.size)
      case Err(e) => Err(e)
      case Ok(zs) => Ok(Listing(e.comment, start, zs, ByName(zs)))
  }

  // Reading one member.

  predicate Bit(flags: nat, weight: nat)
    requires weight > 0
  {
    flags / weight % 2 == 1
  }

  /** ZipFile.open for reading, without a password: where the data begins, or the exception. */
  function OpenMember(file: seq<byte>, z: ZipInfo): Result<nat, ZipError> {
    if z.headerOffset < 0 then Err(ValueError)
    else
      match ReadLocal(file, z.headerOffset)
      case Err(e) => Err(e)
      case Ok(vs) =>
        if Bit(z.flagBits, 0x20) || Bit(z.flagBits, 0x40) then Err(NotImplemented)
        else if LocalName(file, z.headerOffset, vs) != z.origName then Err(BadZipFile)
        else if Bit(z.flagBits, 1) then Err(RuntimeError)
        else Ok(DataStart(file, z.headerOffset, vs))
  }

  /** The bytes that a stored member really has: both sizes and the end of the file cut it. */
  function Stored(file: seq<byte>, start: nat, z: ZipInfo): seq<byte> {
    Take(Take(Drop(file, start), z.compressSize), z.fileSize)
  }

  /** Reading up to the end never meets the end of the file. */
  predicate Whole(file: seq<byte>, start: nat, z: ZipInfo) {
    |Stored(file, start, z)| == Min(z.compressSize, z.fileSize) && (start < |file| || z.compressSize == 0)
  }

  function ReadStored(file: seq<byte>, start: nat, z: ZipInfo, crc32: Crc32): Result<seq<byte>, ZipError> {
    if !Whole(file, start, z) then Err(EndOfFile)
    else if crc32(Stored(file, start, z), 0) != z.crc then Err(BadZipFile)
    else Ok(Stored(file, start, z))
  }

  /** Opening and reading a stored member in one go. */
  function ReadMember(file: seq<byte>, z: ZipInfo, crc32: Crc32): Result<seq<byte>, ZipError> {
    match OpenMember(file, z)
    case Err(e) => Err(e)
    case Ok(start) => ReadStored(file, start, z, crc32)
  }

  /** A member's header is recognized where the object says, whatever is around it. */
  lemma OpenMemberOf(file: seq<byte>, before: seq<byte>, m: Member, after: seq<byte>, crc32: Crc32, seen: ZipInfo)
    requires file == before + m.header + after && ValidMember(m, crc32)
    requires seen.headerOffset == |before| && seen.flagBits == 0 && seen.origName == m.info.name
    ensures OpenMember(file, seen) == Ok(|before + m.header|)
  {
    HeaderAt(file, before, m.info, m.zip64, m.header, after);
    OpenMemberParts(file, seen, LocalValues(m.info, m.zip64), |before + m.header|);
  }

  lemma OpenMemberParts(file: seq<byte>, z: ZipInfo, vs: seq<nat>, start: nat)
    requires z.headerOffset >= 0 && z.flagBits == 0
    requires ReadLocal(file, z.headerOffset) == Ok(vs) && LocalName(file, z.headerOffset, vs) == z.origName
    requires DataStart(file, z.headerOffset, vs) == start
    ensures OpenMember(file, z) == Ok(start)
  {
  }

  lemma StoredOf(file: seq<byte>, before: seq<byte>, data: seq<byte>, after: seq<byte>, z: ZipInfo)
    requires file == before + data + after && z.fileSize == z.compressSize == |data|
    ensures Stored(file, |before|, z) == data && Whole(file, |before|, z)
  {
    assert file == before + (data + after);
    TakeDrop(before, data + after);
    TakeDrop(data, after);
  }

  /** A member that stands at its offset reads as its data. */
  lemma ReadMemberOf(file: seq<byte>, before: seq<byte>, m: Member, after: seq<byte>, crc32: Crc32, seen: ZipInfo)
    requires file == before + MemberBytes(m) + after && ValidMember(m, crc32)
    requires seen.headerOffset == |before| && seen.flagBits == 0 && seen.origName == m.info.name
    requires seen.fileSize == seen.compressSize == |m.data| && seen.crc == m.info.crc
    ensures ReadMember(file, seen, crc32) == Ok(m.data)
  {
    MemberSlices(before, m.header, m.data, after);
    OpenMemberOf(file, before, m, m.data + after, crc32, seen);
    StoredOf(file, before + m.header, m.data, after, seen);
    ReadMemberParts(file, seen, crc32, |before + m.header|, m.data);
  }

  lemma MemberSlices(before: seq<byte>, header: seq<byte>, data: seq<byte>, after: seq<byte>)
    ensures before + (header + data) + after == before + header + (data + after) == (before + header) + data + after
  {
  }

  lemma ReadMemberParts(file: seq<byte>, z: ZipInfo, crc32: Crc32, start: nat, data: seq<byte>)
    requires OpenMember(file, z) == Ok(start) && Stored(file, start, z) == data && Whole(file, start, z)
    requires crc32(data, 0) == z.crc
    ensures ReadMember(file, z, crc32) == Ok(data)
  {
  }

  // Archives.

  function InfoOf(m: Member): ZipInfo {
    m.info
  }

  function Infos(ms: seq<Member>): (zs: seq<ZipInfo>)
    ensures |zs| == |ms| && forall i :: 0 <= i < |ms| ==> zs[i] == ms[i].info
  {
    Map(InfoOf, ms)
  }

  /** Everything before the end records: what the stream held before, the members, the directory. */
  function Front(base: seq<byte>, ms: seq<Member>): seq<byte> {
    base + Body(ms) + Directory(Infos(ms))
  }

  function Archive(base: seq<byte>, ms: seq<Member>, comment: seq<byte>): seq<byte> {
    Front(base, ms) + EndRecords(|ms|, |Directory(Infos(ms))|, |base + Body(ms)|, comment)
  }

  /** An archive that a writer can close: its members in place, its records packed. */
  ghost predicate ValidArchive(base: seq<byte>, ms: seq<Member>, comment: seq<byte>, crc32: Crc32) {
    && Placed(ms, |base|)
    && AllValid(ms, crc32)
    && EndFits(|ms|, |Directory(Infos(ms))|, |base + Body(ms)|, comment)
  }

  /** The caller's conditions under which the end of the archive is found. */
  ghost predicate Clear(pre: seq<byte>, base: seq<byte>, ms: seq<Member>, comment: seq<byte>) {
    Findable(pre + Front(base, ms), |ms|, |Directory(Infos(ms))|, |base + Body(ms)|, comment)
  }

  lemma ArchiveParts(p: seq<byte>, a: seq<byte>, b: seq<byte>, d: seq<byte>, e: seq<byte>)
    ensures var file := p + (a + b + d) + e;
            && file == p + (a + b + d + e)
            && Take(Drop(file, |p| + |a + b|), |d|) == d
  {
    var front := p + (a + b);
    assert p + (a + b + d) + e == front + (d + e);
    assert Drop(front + (d + e), |front|) == d + e;
    assert Take(d + e, |d|) == d;
  }

  /** What the loop over the directory makes of the file, given its end record. */
  predicate Lists(file: seq<byte>, e: EndRecord, listing: Listing) {
    && e.offset + Concat(e) == listing.startDir && e.comment == listing.comment
    && listing.names == ByName(listing.infos)
    && Entries(Decoder(Concat(e)), Take(Drop(file, listing.startDir), e.size), e.size) == Ok(listing.infos)
  }

  lemma ListsContents(file: seq<byte>, e: EndRecord, listing: Listing)
    requires Lists(file, e, listing)
    ensures ContentsAt(file, e) == Ok(listing)
  {
    assert listing == Listing(e.comment, e.offset + Concat(e), listing.infos, ByName(listing.infos));
  }

  lemma ContentsParts(file: seq<byte>, e: EndRecord, listing: Listing)
    requires FindEnd(file) == Ok(e) && ContentsAt(file, e) == Ok(listing)
    ensures Contents(file) == Ok(listing)
  {
  }

  /** The directory is where the end record says, moved by what was put before it. */
  lemma DirectoryAt(file: seq<byte>, pre: seq<byte>, base: seq<byte>, ms: seq<Member>, comment: seq<byte>)
    requires file == pre + Archive(base, ms, comment)
    ensures Take(Drop(file, |pre| + |base + Body(ms)|), |Directory(Infos(ms))|) == Directory(Infos(ms))
    ensures file == pre + Front(base, ms) + EndRecords(|ms|, |Directory(Infos(ms))|, |base + Body(ms)|, comment)
  {
    var dir, offset := Directory(Infos(ms)), |base + Body(ms)|;
    ArchiveParts(pre, base, Body(ms), dir, EndRecords(|ms|, |dir|, offset, comment));
  }

  /** The members in order, and what else a reader should find. */
  function ListingOf(pre: seq<byte>, base: seq<byte>, ms: seq<Member>, comment: seq<byte>): Listing {
    var zs := Map(Sight(|pre|), Infos(ms));
    Listing(comment, |pre| + |base + Body(ms)|, zs, ByName(zs))
  }

  lemma FindAt(file: seq<byte>, before: seq<byte>, count: nat, size: nat, offset: nat, comment: seq<byte>)
    requires file == before + EndRecords(count, size, offset, comment)
    requires EndFits(count, size, offset, comment) && Findable(before, count, size, offset, comment)
    ensures FindEnd(file) == Ok(Expected(before, count, size, offset, comment))
  {
    FindWritten(before, count, size, offset, comment);
  }

  /**
   Whatever is put before it, an archive that was written reads as the list of its members, in order, with
   all offsets moved by the length of what was put before it, with or without ZIP64 records.
   */
  lemma ContentsOf(
      file: seq<byte>, pre: seq<byte>, base: seq<byte>, ms: seq<Member>, comment: seq<byte>, crc32: Crc32)
    requires ValidArchive(base, ms, comment, crc32) && AllReadable(Infos(ms))
    requires Clear(pre, base, ms, comment)
    requires file == pre + Archive(base, ms, comment)
    ensures Contents(file) == Ok(ListingOf(pre, base, ms, comment))
  {
    EndOf(file, pre, base, ms, comment);
    DirectoryOf(file, pre, base, ms, comment);
    ListsContents(file, EndSeen(pre, base, ms, comment), ListingOf(pre, base, ms, comment));
    ContentsParts(file, EndSeen(pre, base, ms, comment), ListingOf(pre, base, ms, comment));
  }

  function EndSeen(pre: seq<byte>, base: seq<byte>, ms: seq<Member>, comment: seq<byte>): EndRecord {
    Expected(pre + Front(base, ms), |ms|, |Directory(Infos(ms))|, |base + Body(ms)|, comment)
  }

  lemma EndOf(file: seq<byte>, pre: seq<byte>, base: seq<byte>, ms: seq<Member>, comment: seq<byte>)
    requires EndFits(|ms|, |Directory(Infos(ms))|, |base + Body(ms)|, comment)
    requires Clear(pre, base, ms, comment) && file == pre + Archive(base, ms, comment)
    ensures FindEnd(file) == Ok(EndSeen(pre, base, ms, comment))
  {
    DirectoryAt(file, pre, base, ms, comment);
    FindAt(file, pre + Front(base, ms), |ms|, |Directory(Infos(ms))|, |base + Body(ms)|, comment);
  }

  lemma DirectoryOf(file: seq<byte>, pre: seq<byte>, base: seq<byte>, ms: seq<Member>, comment: seq<byte>)
    requires AllReadable(Infos(ms))
    requires file == pre + Archive(base, ms, comment)
    ensures Lists(file, EndSeen(pre, base, ms, comment), ListingOf(pre, base, ms, comment))
  {
    NumbersSeen(pre, base, ms, comment);
    var e, listing := EndSeen(pre, base, ms, comment), ListingOf(pre, base, ms, comment);
    TakeDirectory(file, pre, base, ms, comment, listing.startDir, e.size);
    EntriesHold(Infos(ms), |pre|, Decoder(Concat(e)), Take(Drop(file, listing.startDir), e.size), e.size);
  }

  lemma TakeDirectory(
      file: seq<byte>, pre: seq<byte>, base: seq<byte>, ms: seq<Member>, comment: seq<byte>, start: nat, size: nat)
    requires file == pre + Archive(base, ms, comment)
    requires start == |pre| + |base + Body(ms)| && size == |Directory(Infos(ms))|
    ensures Take(Drop(file, start), size) == Directory(Infos(ms))
  {
    DirectoryAt(file, pre, base, ms, comment);
  }

  lemma {:induction false} EntriesHold(zs: seq<ZipInfo>, concat: int, decode: EntryDecoder, data: seq<byte>, size: nat)
    requires AllReadable(zs)
    requires decode == Decoder(concat) && data == Directory(zs) && size == |Directory(zs)|
    ensures Entries(decode, data, size) == Ok(Map(Sight(concat), zs))
  {
    EntriesOf(zs, concat);
  }

  lemma NumbersSeen(pre: seq<byte>, base: seq<byte>, ms: seq<Member>, comment: seq<byte>)
    ensures var e := EndSeen(pre, base, ms, comment);
            && e.size == |Directory(Infos(ms))| && e.offset == |base + Body(ms)| && e.comment == comment
            && Concat(e) == |pre|
    ensures ListingOf(pre, base, ms, comment).startDir == |pre| + |base + Body(ms)|
    ensures ListingOf(pre, base, ms, comment).infos == Map(Sight(|pre|), Infos(ms))
  {
  }

  lemma Regroup(
      p: seq<byte>, a: seq<byte>, f: seq<byte>, o: seq<byte>, t: seq<byte>, d: seq<byte>, e: seq<byte>)
    ensures p + (a + (f + o + t) + d + e) == (p + a + f) + o + (t + d + e)
  {
  }

  /** Every member of a moved archive reads as the data it was written with. */
  lemma {:induction false} ReadOf(pre: seq<byte>, base: seq<byte>, ms: seq<Member>, comment: seq<byte>,
      crc32: Crc32, i: nat)
    requires Placed(ms, |base|) && i < |ms| && AllValid(ms, crc32)
    ensures ReadMember(pre + Archive(base, ms, comment), Sight(|pre|)(ms[i].info), crc32) == Ok(ms[i].data)
  {
    var dir := Directory(Infos(ms));
    var ending := EndRecords(|ms|, |dir|, |base + Body(ms)|, comment);
    var first, own, tail := Body(ms[..i]), MemberBytes(ms[i]), Body(ms[i + 1..]);
    FlatAt(MemberBytes, ms, i);
    Regroup(pre, base, first, own, tail, dir, ending);
    ReadMemberOf(pre + Archive(base, ms, comment), pre + base + first, ms[i],
                 tail + dir + ending, crc32, Sight(|pre|)(ms[i].info));
  }

  /** The names of an archive that was written, looked up and read: each gives the data of its last member. */
  lemma NamesOf(pre: seq<byte>, base: seq<byte>, ms: seq<Member>, comment: seq<byte>, crc32: Crc32, i: nat)
    requires ValidArchive(base, ms, comment, crc32) && AllReadable(Infos(ms))
    requires Clear(pre, base, ms, comment)
    requires i < |ms| && forall j :: i < j < |ms| ==> ms[j].info.name != ms[i].info.name
    ensures var file := pre + Archive(base, ms, comment);
            var r := Contents(file);
            && r.Ok? && ms[i].info.name in r.value.names
            && r.value.names[ms[i].info.name] == Sight(|pre|)(ms[i].info)
            && ReadMember(file, r.value.names[ms[i].info.name], crc32) == Ok(ms[i].data)
  {
    ContentsOf(pre + Archive(base, ms, comment), pre, base, ms, comment, crc32);
    ReadOf(pre, base, ms, comment, crc32, i);
    var zs := Map(Sight(|pre|), Infos(ms));
    assert zs[i] == Sight(|pre|)(ms[i].info);
    ByNameLast(zs, i);
  }
}
