/** Names and comments that keep an archive from being read: the conditions on the end of an archive are needed. */
module ZipMisled {
  import opened Bits
  import opened Wrappers
  import opened ZipStruct
  import ZipExtra
  import opened ZipRecords
  import opened ZipEnd
  import opened ZipArchive
  import opened ZipItems
  import opened ZipRoundTrip

  const LOCATOR64_MAGIC: seq<byte> := [0x50, 0x4B, 6, 7]

  /** Twenty bytes that begin with the signature of a ZIP64 locator. */
  predicate BeginsLikeLocator(s: seq<byte>) {
    |s| == 20 && s[..4] == LOCATOR64_MAGIC
  }

  lemma {:induction false} FirstOne(f: Format, s: seq<byte>)
    requires f != [] && |s| == SizeOf(f)
    ensures f[0] <= |s| && Unpack(f, s)[0] == UnpackInt(s[..f[0]])
  {
  }

  lemma {:induction false} LastOne(f: Format, s: seq<byte>)
    requires f != [] && |s| == SizeOf(f)
    ensures f[|f| - 1] <= |s|
    ensures Unpack(f, s)[|f| - 1] == UnpackInt(s[|s| - f[|f| - 1]..])
    decreases |f|
  {
    if |f| == 1 {
      assert f[1..] == [] && s[..f[0]] == s[|s| - f[0]..];
    } else {
      var more, rest := f[1..], s[f[0]..];
      LastOne(more, rest);
      assert Unpack(f, s)[|f| - 1] == Unpack(more, rest)[|more| - 1];
      assert rest[|rest| - more[|more| - 1]..] == s[|s| - f[|f| - 1]..];
    }
  }

  /** Signature and number of disks. */
  lemma LocatorFields(s: seq<byte>)
    requires |s| == 20
    ensures UnpackLocator64(s)[0] == UnpackInt(s[..4])
    ensures UnpackLocator64(s)[3] == UnpackInt(s[16..])
  {
    Sizes();
    FirstOne(LOCATOR64, s);
    LastOne(LOCATOR64, s);
  }

  lemma MagicNumber()
    ensures UnpackInt(LOCATOR64_MAGIC) == LOCATOR64_SIGNATURE
  {
    assert LOCATOR64_MAGIC[1..] == [0x4B, 6, 7];
    assert [0x4B, 6, 7][1..] == [6, 7];
    assert [6, 7][1..] == [7];
    assert [7][1..] == [];
  }

  lemma {:induction false} MagicExactly(s: seq<byte>)
    requires |s| == 4
    ensures UnpackInt(s) == LOCATOR64_SIGNATURE <==> s == LOCATOR64_MAGIC
  {
    MagicNumber();
    PackUnpackInt(s);
    PackUnpackInt(LOCATOR64_MAGIC);
  }

  /** A number whose upper bytes are not 0. */
  lemma {:induction false} NotSmall(s: seq<byte>)
    requires |s| == 4 && s[3] != 0
    ensures UnpackInt(s) > 1
  {
    assert UnpackInt(s) == s[0] + 256 * UnpackInt(s[1..]);
    assert UnpackInt(s[1..]) == s[1] + 256 * UnpackInt(s[2..]) by {
      assert s[1..][1..] == s[2..];
    }
    assert UnpackInt(s[2..]) == s[2] + 256 * UnpackInt(s[3..]) by {
      assert s[2..][1..] == s[3..];
    }
    assert UnpackInt(s[3..]) == s[3] by {
      assert s[3..][1..] == [];
    }
  }

  /** The twenty bytes before the end record. */
  lemma TailOf(before: seq<byte>, record: seq<byte>)
    requires |before| >= 20
    ensures (before + record)[|before| - 20..|before|] == before[|before| - 20..]
  {
  }

  /** Bytes that begin with the signature and end with no 0 are taken for a locator of several disks. */
  lemma Refused(before: seq<byte>, count: nat, size: nat, offset: nat)
    requires EndFits(count, size, offset, []) && !NeedsZip64(count, size, offset)
    requires |before| >= 20 && BeginsLikeLocator(before[|before| - 20..]) && before[|before| - 1] != 0
    ensures FindEnd(before + EndRecords(count, size, offset, [])) == Err(BadZipFile)
  {
    var vs := EndValues(count, size, offset, []);
    EndValuesFit(count, size, offset, []);
    assert before + EndRecords(count, size, offset, []) == before + PackEnd(vs);
    SearchPlain(before, vs);
    TailOf(before, PackEnd(vs));
    var s := before[|before| - 20..];
    LocatorFields(s);
    MagicExactly(s[..4]);
    NotSmall(s[16..]);
  }

  /** Bytes that do not begin like a locator mislead nobody. */
  lemma NotMisled(before: seq<byte>, count: nat, size: nat, offset: nat)
    requires |before| >= 20 && !BeginsLikeLocator(before[|before| - 20..])
    ensures Findable(before, count, size, offset, [])
  {
    TailOf(before, EndRecords(count, size, offset, []));
    var s := before[|before| - 20..];
    LocatorFields(s);
    MagicExactly(s[..4]);
  }

  // The end of the directory.

  lemma EndOfConcat(a: seq<byte>, b: seq<byte>, k: nat)
    requires k <= |b|
    ensures (a + b)[|a + b| - k..] == b[|b| - k..]
  {
  }

  lemma {:induction false} FlatEnds<T>(bytes: T -> seq<byte>, front: seq<T>, t: T)
    requires |bytes(t)| >= 20
    ensures var d := Flat(bytes, front + [t]);
            |d| >= 20 && d[|d| - 20..] == bytes(t)[|bytes(t)| - 20..]
  {
    FlatAppend(bytes, front, t);
    EndOfConcat(Flat(bytes, front), bytes(t), 20);
  }

  /** A small member with nothing but a name. */
  predicate Bare(z: ZipInfo) {
    && ValidInfo(z) && z.extra == [] && z.comment == [] && |z.name| < 0x1_0000
    && z.fileSize <= ZIP64_LIMIT && z.compressSize <= ZIP64_LIMIT && z.headerOffset <= ZIP64_LIMIT
  }

  lemma BareEntry(z: ZipInfo)
    requires Bare(z)
    ensures EntryBytes(z) == PackCentral(CentralValues(z)) + z.name
    ensures CentralTail(z)[0] == |z.name| && CentralTail(z)[6] == z.headerOffset
  {
    assert ZipExtra.CentralExtra(z.extra, NumbersOf(z)) == [];
  }

  /** The last twenty bytes of the directory entry. */
  function EntryEnd(z: ZipInfo): (s: seq<byte>)
    requires Bare(z)
    ensures |s| == 20
  {
    BareEntry(z);
    EntryBytes(z)[|EntryBytes(z)| - 20..]
  }

  lemma {:induction false} PackConcat(f: Format, g: Format, vs: seq<nat>, ws: seq<nat>)
    requires |f| == |vs| && |g| == |ws|
    ensures Pack(f + g, vs + ws) == Pack(f, vs) + Pack(g, ws)
    decreases |f|
  {
    if f == [] {
      assert f + g == g && vs + ws == ws;
    } else {
      assert (f + g)[1..] == f[1..] + g && (vs + ws)[1..] == vs[1..] + ws;
      PackConcat(f[1..], g, vs[1..], ws);
    }
  }

  /** The fixed part of an entry: 28 bytes, the length of the name, 12 bytes, the offset. */
  lemma FixedPart(z: ZipInfo)
    requires Bare(z)
    ensures var packed := PackCentral(CentralValues(z));
            packed[28..30] == PackInt(|z.name|, 2) && packed[42..] == PackInt(z.headerOffset, 4)
  {
    var tail := Pack(CENTRAL_TAIL, CentralTail(z));
    PackConcat(CENTRAL_HEAD + CENTRAL_MIDDLE, CENTRAL_TAIL, CentralHead(z) + CentralMiddle(z), CentralTail(z));
    CentralTailSize();
    BareEntry(z);
    PackFirst(CENTRAL_TAIL, CentralTail(z));
    PackLast(CENTRAL_TAIL, CentralTail(z));
    TailSlices(PackCentral(CentralValues(z)), tail);
  }

  lemma TailSlices(packed: seq<byte>, tail: seq<byte>)
    requires |packed| == 46 && |tail| == 18 && packed[28..] == tail
    ensures packed[28..30] == tail[..2] && packed[42..] == tail[14..]
  {
    assert packed[28..][..2] == packed[28..30] && packed[28..][14..] == packed[42..];
  }

  /** A short name never makes the entry end like a locator: its length would be part of the signature. */
  lemma ShortName(z: ZipInfo)
    requires Bare(z) && |z.name| < 4
    ensures !BeginsLikeLocator(EntryEnd(z))
  {
    FixedPart(z);
    BareEntry(z);
    SmallLength(|z.name|);
    LengthAtEnd(PackCentral(CentralValues(z)), z.name, EntryEnd(z));
  }

  lemma {:induction false} SmallLength(n: nat)
    requires n < 4
    ensures PackInt(n, 2) == [n as byte, 0]
  {
    assert PackInt(n, 2) == [n as byte] + PackInt(0, 1) && PackInt(0, 1) == [0] + PackInt(0, 0);
  }

  lemma LengthAtEnd(packed: seq<byte>, name: seq<byte>, end: seq<byte>)
    requires |packed| == 46 && |name| < 4 && packed[28..30] == [|name| as byte, 0]
    requires end == (packed + name)[26 + |name|..]
    ensures end[..4] != LOCATOR64_MAGIC
  {
    var n := |name|;
    assert packed[28] == packed[28..30][0] && packed[29] == packed[28..30][1];
    assert end[..4][0] == (packed + name)[26 + n];
    assert end[..4][1] == (packed + name)[27 + n];
    assert end[..4][2] == (packed + name)[28 + n];
  }

  /** A longer one puts its last byte at the end, which is not NUL. */
  lemma LongerName(z: ZipInfo)
    requires Bare(z) && |z.name| >= 4
    ensures EntryEnd(z)[19] != 0
  {
    BareEntry(z);
    assert EntryEnd(z)[19] == z.name[|z.name| - 1];
    assert z.name[|z.name| - 1] in z.name;
  }

  lemma FrontEnds(pre: seq<byte>, base: seq<byte>, ms: seq<Member>)
    requires ms != [] && Bare(ms[|ms| - 1].info)
    ensures var before := pre + Front(base, ms);
            |before| >= 20 && before[|before| - 20..] == EntryEnd(ms[|ms| - 1].info)
  {
    var zs, z := Infos(ms), ms[|ms| - 1].info;
    var front := zs[..|ms| - 1];
    assert zs == front + [z];
    BareEntry(z);
    FlatEnds(EntryBytes, front, z);
    EndOfConcat(base + Body(ms), Directory(zs), 20);
    EndOfConcat(pre, Front(base, ms), 20);
  }

  lemma RefusedFile(file: seq<byte>, before: seq<byte>, count: nat, size: nat, offset: nat)
    requires file == before + EndRecords(count, size, offset, [])
    requires EndFits(count, size, offset, []) && !NeedsZip64(count, size, offset)
    requires |before| >= 20 && BeginsLikeLocator(before[|before| - 20..]) && before[|before| - 1] != 0
    ensures Contents(file) == Err(BadZipFile)
  {
    Refused(before, count, size, offset);
  }

  lemma ClearEnd(pre: seq<byte>, base: seq<byte>, ms: seq<Member>)
    requires ms != [] && Bare(ms[|ms| - 1].info) && !BeginsLikeLocator(EntryEnd(ms[|ms| - 1].info))
    ensures Clear(pre, base, ms, [])
  {
    FrontEnds(pre, base, ms);
    NotMisled(pre + Front(base, ms), |ms|, |Directory(Infos(ms))|, |base + Body(ms)|);
  }

  /** The part of ValidArchive that speaks of the end records. */
  lemma EndOfValid(base: seq<byte>, ms: seq<Member>, comment: seq<byte>, crc32: Crc32)
    requires ValidArchive(base, ms, comment, crc32)
    ensures EndFits(|ms|, |Directory(Infos(ms))|, |base + Body(ms)|, comment)
  {
  }

  lemma NotNulAtEnd(z: ZipInfo, before: seq<byte>)
    requires Bare(z) && BeginsLikeLocator(EntryEnd(z)) && |before| >= 20 && before[|before| - 20..] == EntryEnd(z)
    ensures before[|before| - 1] != 0
  {
    if |z.name| < 4 {
      ShortName(z);
    }
    LongerName(z);
    assert before[|before| - 1] == before[|before| - 20..][19];
  }

  lemma RefusedArchive(file: seq<byte>, pre: seq<byte>, base: seq<byte>, ms: seq<Member>, crc32: Crc32)
    requires ValidArchive(base, ms, [], crc32) && ms != []
    requires !NeedsZip64(|ms|, |Directory(Infos(ms))|, |base + Body(ms)|)
    requires Bare(ms[|ms| - 1].info) && BeginsLikeLocator(EntryEnd(ms[|ms| - 1].info))
    requires file == pre + Archive(base, ms, [])
    ensures Contents(file) == Err(BadZipFile)
  {
    var before := pre + Front(base, ms);
    FrontEnds(pre, base, ms);
    NotNulAtEnd(ms[|ms| - 1].info, before);
    EndOfValid(base, ms, [], crc32);
    DirectoryAt(file, pre, base, ms, []);
    RefusedFile(file, before, |ms|, |Directory(Infos(ms))|, |base + Body(ms)|);
  }

  /**
   An archive without a comment and without ZIP64 records, whose last member has nothing but a name, is
   listed as it was written if and only if its directory does not end like a ZIP64 locator begins. It is
   written without complaint in both cases; in the other one it cannot be opened at all.
   */
  lemma ListedExactly(file: seq<byte>, pre: seq<byte>, base: seq<byte>, ms: seq<Member>, crc32: Crc32)
    requires ValidArchive(base, ms, [], crc32) && AllReadable(Infos(ms)) && ms != []
    requires !NeedsZip64(|ms|, |Directory(Infos(ms))|, |base + Body(ms)|)
    requires Bare(ms[|ms| - 1].info)
    requires file == pre + Archive(base, ms, [])
    ensures Contents(file) == if BeginsLikeLocator(EntryEnd(ms[|ms| - 1].info)) then Err(BadZipFile)
                              else Ok(ListingOf(pre, base, ms, []))
  {
    if BeginsLikeLocator(EntryEnd(ms[|ms| - 1].info)) {
      RefusedArchive(file, pre, base, ms, crc32);
    } else {
      ClearEnd(pre, base, ms);
      ContentsOf(file, pre, base, ms, [], crc32);
    }
  }

  // The same for what is stored.

  lemma BareLast(ms: seq<Member>, items: seq<Item>, start: nat, crc32: Crc32)
    requires Placed(ms, start) && AllValid(ms, crc32) && Holds(ms, items) && ms != []
    requires start + |Body(ms)| <= ZIP64_LIMIT
    ensures Bare(ms[|ms| - 1].info) && ms[|ms| - 1].info.name == items[|items| - 1].name
  {
    assert IsItem(ms[|ms| - 1], items[|ms| - 1]);
    RangesDisjoint(ms, start, |ms| - 1, |ms| - 1);
  }

  /** Few and short items: their archive is written without ZIP64 records. */
  predicate Modest(items: seq<Item>, base: seq<byte>) {
    && AllGood(items) && Distinct(items) && items != []
    && |base| + Room(items) <= ZIP64_LIMIT && |items| <= ZIP_FILECOUNT_LIMIT
  }

  lemma ShortArchive(base: seq<byte>, ms: seq<Member>)
    requires |base| + |Body(ms)| + |Directory(Infos(ms))| <= ZIP64_LIMIT && |ms| <= ZIP_FILECOUNT_LIMIT
    ensures !TooLong(base, ms) && !NeedsZip64(|ms|, |Directory(Infos(ms))|, |base + Body(ms)|)
  {
  }

  lemma ModestLength(items: seq<Item>, now: DateTime, base: seq<byte>, ms: seq<Member>, crc32: Crc32)
    requires Modest(items, base) && GoodTime(now) && ms == MembersOf(items, now, |base|, crc32)
    ensures |base| + |Body(ms)| <= ZIP64_LIMIT && !TooLong(base, ms)
    ensures !NeedsZip64(|ms|, |Directory(Infos(ms))|, |base + Body(ms)|)
  {
    RoomSuffices(items, now, |base|, crc32);
    ShortArchive(base, ms);
  }

  lemma ModestLast(items: seq<Item>, now: DateTime, base: seq<byte>, ms: seq<Member>, crc32: Crc32)
    requires Modest(items, base) && GoodTime(now) && ms == MembersOf(items, now, |base|, crc32)
    ensures Bare(ms[|ms| - 1].info) && ms[|ms| - 1].info.name == items[|items| - 1].name
  {
    ModestLength(items, now, base, ms, crc32);
    MembersInPlace(items, now, |base|, crc32);
    BareLast(ms, items, |base|, crc32);
  }

  lemma ModestArchive(items: seq<Item>, now: DateTime, base: seq<byte>, ms: seq<Member>, crc32: Crc32)
    requires Modest(items, base) && GoodTime(now) && ms == MembersOf(items, now, |base|, crc32)
    ensures ValidArchive(base, ms, [], crc32) && AllReadable(Infos(ms)) && Holds(ms, items) && !TooLong(base, ms)
    ensures !NeedsZip64(|ms|, |Directory(Infos(ms))|, |base + Body(ms)|)
  {
    ModestLength(items, now, base, ms, crc32);
    ItemsReadable(items, now, [], base, ms, crc32);
  }

  lemma RefusedRead(file: seq<byte>, crc32: Crc32)
    requires Contents(file) == Err(BadZipFile)
    ensures AllRead(file, crc32) == Err(BadZipFile)
  {
  }

  lemma ArchiveReadExactly(
      file: seq<byte>, pre: seq<byte>, base: seq<byte>, ms: seq<Member>, crc32: Crc32, items: seq<Item>)
    requires ValidArchive(base, ms, [], crc32) && AllReadable(Infos(ms)) && ms != []
    requires !NeedsZip64(|ms|, |Directory(Infos(ms))|, |base + Body(ms)|)
    requires Bare(ms[|ms| - 1].info)
    requires file == pre + Archive(base, ms, []) && Holds(ms, items) && Distinct(items)
    ensures AllRead(file, crc32) == if BeginsLikeLocator(EntryEnd(ms[|ms| - 1].info)) then Err(BadZipFile)
                                    else Ok(items)
  {
    if BeginsLikeLocator(EntryEnd(ms[|ms| - 1].info)) {
      RefusedArchive(file, pre, base, ms, crc32);
      RefusedRead(file, crc32);
    } else {
      ClearEnd(pre, base, ms);
      ArchiveReads(file, pre, base, ms, [], crc32, items);
    }
  }

  /** Whether the directory of the items ends like a ZIP64 locator begins. */
  predicate EndsBadly(items: seq<Item>, now: DateTime, base: seq<byte>, crc32: Crc32)
    requires Modest(items, base) && GoodTime(now)
  {
    var ms := MembersOf(items, now, |base|, crc32);
    ModestLast(items, now, base, ms, crc32);
    BeginsLikeLocator(EntryEnd(ms[|ms| - 1].info))
  }

  /**
   The same as a condition on what is stored: an archive without a comment, small enough to do without
   ZIP64 records, comes back if and only if its directory does not end like a ZIP64 locator begins.
   */
  lemma ItemsReadExactly(items: seq<Item>, now: DateTime, base: seq<byte>, pre: seq<byte>, crc32: Crc32)
    requires Modest(items, base) && GoodTime(now)
    ensures Written(items, now, [], base, crc32).Ok?
    ensures AllRead(pre + Written(items, now, [], base, crc32).value, crc32)
            == if EndsBadly(items, now, base, crc32) then Err(BadZipFile) else Ok(items)
  {
    var ms := MembersOf(items, now, |base|, crc32);
    ModestArchive(items, now, base, ms, crc32);
    ModestLast(items, now, base, ms, crc32);
    ArchiveReadExactly(pre + Archive(base, ms, []), pre, base, ms, crc32, items);
  }

  // Such names.

  /** From sixteen bytes on, the end of the entry is the end of the offset and the name. */
  lemma EndOfName(z: ZipInfo)
    requires Bare(z) && |z.name| >= 16
    ensures EntryEnd(z) == (PackInt(z.headerOffset, 4) + z.name)[|z.name| - 16..]
  {
    var packed := PackCentral(CentralValues(z));
    FixedPart(z);
    BareEntry(z);
    assert packed == packed[..42] + PackInt(z.headerOffset, 4);
    Associate(packed[..42], PackInt(z.headerOffset, 4), z.name);
    EndOfConcat(packed[..42], PackInt(z.headerOffset, 4) + z.name, 20);
  }

  lemma OneItem(i: Item, now: DateTime, start: nat, crc32: Crc32)
    requires Good(i) && GoodTime(now)
    ensures MembersOf([i], now, start, crc32) == [MemberAt(i, now, start, crc32)]
    ensures MembersOf([i], now, start, crc32)[0].info.name == i.name
    ensures MembersOf([i], now, start, crc32)[0].info.headerOffset == start
  {
    assert [i][..0] == [] && Body([]) == [];
    InfoAtFits(i, now, start, crc32);
  }

  lemma OneIsModest(i: Item, base: seq<byte>)
    requires Good(i) && i.data == [] && |i.name| <= 20 && |base| <= 0x7000_0000
    ensures Modest([i], base)
  {
    assert [i][..0] == [];
    assert Room([i]) == 124 + 2 * |i.name|;
  }

  lemma {:induction false} EmptyEndsBadly(i: Item, now: DateTime, base: seq<byte>, crc32: Crc32)
    requires Good(i) && Modest([i], base) && |i.name| >= 16 && GoodTime(now)
    requires BeginsLikeLocator((PackInt(|base|, 4) + i.name)[|i.name| - 16..])
    ensures EndsBadly([i], now, base, crc32)
  {
    var ms := MembersOf([i], now, |base|, crc32);
    OneItem(i, now, |base|, crc32);
    ModestLast([i], now, base, ms, crc32);
    EndOfName(ms[0].info);
  }

  /** An empty file behind some bytes: the outcome depends on its name and on how many bytes there are. */
  lemma {:induction false} EmptyFile(i: Item, now: DateTime, base: seq<byte>, crc32: Crc32)
    requires Good(i) && i.data == [] && 16 <= |i.name| <= 20 && |base| <= 0x7000_0000 && GoodTime(now)
    requires BeginsLikeLocator((PackInt(|base|, 4) + i.name)[|i.name| - 16..])
    ensures Written([i], now, [], base, crc32).Ok?
    ensures AllRead([] + Written([i], now, [], base, crc32).value, crc32) == Err(BadZipFile)
  {
    OneIsModest(i, base);
    EmptyEndsBadly(i, now, base, crc32);
    ItemsReadExactly([i], now, base, [], crc32);
  }

  const LETTERS: seq<byte> := seq(16, i => 0x61)
  const MISLEADING_NAME: seq<byte> := LOCATOR64_MAGIC + LETTERS

  /** One such input: an empty file under this name is stored without complaint, and the archive is refused. */
  lemma MisleadingName(now: DateTime, crc32: Crc32)
    requires GoodTime(now)
    ensures var i := Item(MISLEADING_NAME, []);
            && Good(i) && Written([i], now, [], [], crc32).Ok?
            && AllRead([] + Written([i], now, [], [], crc32).value, crc32) == Err(BadZipFile)
  {
    var name := MISLEADING_NAME;
    assert |PackInt(0, 4)| == 4;
    assert (PackInt(0, 4) + name)[4..] == name && name[..4] == LOCATOR64_MAGIC;
    EmptyFile(Item(name, []), now, [], crc32);
  }

  /** Another one: any sixteen letters will do behind 0x07064B50 bytes, whose number is the signature. */
  lemma MisleadingOffset(now: DateTime, base: seq<byte>, crc32: Crc32)
    requires GoodTime(now) && |base| == LOCATOR64_SIGNATURE
    ensures var i := Item(LETTERS, []);
            && Good(i) && Written([i], now, [], base, crc32).Ok?
            && AllRead([] + Written([i], now, [], base, crc32).value, crc32) == Err(BadZipFile)
  {
    MagicNumber();
    UnpackPackInt(LOCATOR64_SIGNATURE, 4);
    PackUnpackInt(LOCATOR64_MAGIC);
    assert PackInt(|base|, 4) == LOCATOR64_MAGIC;
    assert (PackInt(|base|, 4) + LETTERS)[0..] == LOCATOR64_MAGIC + LETTERS;
    assert (LOCATOR64_MAGIC + LETTERS)[..4] == LOCATOR64_MAGIC;
    EmptyFile(Item(LETTERS, []), now, base, crc32);
  }

  // A comment.

  /** Behind a file that ends with the signature no record is found. */
  lemma NothingFound(front: seq<byte>)
    ensures Search(front + END_MAGIC) == None
  {
    var file := front + END_MAGIC;
    if |file| >= 22 {
      var from := SearchFrom(file);
      SearchedPart(front, END_MAGIC, from);
      MagicLast(front[from..]);
      assert file[|file| - 22..][20..] == [5, 6];
    }
  }

  lemma {:induction false} MagicLast(front: seq<byte>)
    ensures LastMagic(front + END_MAGIC, |front + END_MAGIC|) == Some(|front|)
  {
    assert MagicAt(front + END_MAGIC, |front|);
    LastMagicIs(front + END_MAGIC, |front|);
  }

  /** The signature of the end record as the comment: the search goes by it, and finds no record there. */
  lemma CommentMisleads(before: seq<byte>, count: nat, size: nat, offset: nat)
    ensures FindEnd(before + EndRecords(count, size, offset, END_MAGIC)) == Err(BadZipFile)
  {
    var records, packed := Zip64Records(count, size, offset), PackEnd(EndValues(count, size, offset, END_MAGIC));
    Regrouped(before, records, packed, END_MAGIC);
    NothingFound(before + records + packed);
  }

  lemma Regrouped(a: seq<byte>, b: seq<byte>, c: seq<byte>, d: seq<byte>)
    ensures a + (b + (c + d)) == a + b + c + d
  {
  }

  /** Every archive with that comment is written without complaint and cannot be opened, whatever it holds. */
  lemma {:induction false} MisleadingComment(
      items: seq<Item>, now: DateTime, base: seq<byte>, pre: seq<byte>, crc32: Crc32)
    requires AllGood(items) && GoodTime(now) && |base| + Room(items) <= MAX64
    ensures Written(items, now, END_MAGIC, base, crc32).Ok?
    ensures AllRead(pre + Written(items, now, END_MAGIC, base, crc32).value, crc32) == Err(BadZipFile)
  {
    var ms := MembersOf(items, now, |base|, crc32);
    NotTooLong(items, now, base, crc32);
    CommentRefused(pre, base, ms, crc32);
  }

  lemma CommentRefused(pre: seq<byte>, base: seq<byte>, ms: seq<Member>, crc32: Crc32)
    ensures AllRead(pre + Archive(base, ms, END_MAGIC), crc32) == Err(BadZipFile)
  {
    var file := pre + Archive(base, ms, END_MAGIC);
    DirectoryAt(file, pre, base, ms, END_MAGIC);
    CommentMisleads(pre + Front(base, ms), |ms|, |Directory(Infos(ms))|, |base + Body(ms)|);
    RefusedRead(file, crc32);
  }
}
