/** What a written archive holds for each item, byte by byte: its local header, its data and its listing. */
module ZipLocal {
  import opened Bits
  import opened Wrappers
  import opened ZipStruct
  import opened ZipExtra
  import opened ZipRecords
  import opened ZipEnd
  import opened ZipArchive
  import opened ZipItems
  import opened ZipRoundTrip
  import ZipWriter

  /** Data of at least 2^31 / 1.05 bytes gets a header with room for 64-bit sizes. */
  predicate Wide(i: Item) {
    |i.data| * 105 > ZIP64_LIMIT * 100
  }

  /** The bytes that an item takes: fixed fields, name, a ZIP64 field when it is wide, data. */
  function SizeOfItem(i: Item): nat {
    30 + |i.name| + (if Wide(i) then 20 else 0) + |i.data|
  }

  function Place(items: seq<Item>): nat {
    if items == [] then 0 else Place(items[..|items| - 1]) + SizeOfItem(items[|items| - 1])
  }

  /** The fields after the signature, as section 4.3.7 of the ZIP application note has them. */
  predicate SaysItem(vs: seq<nat>, i: Item, now: DateTime, checksum: nat)
    requires |vs| == |LOCAL|
  {
    && vs[1] == (if |i.data| > ZIP64_LIMIT then 45 else 20)
    && vs[2] == vs[3] == vs[4] == 0
    && vs[5] == now.hour * 2048 + now.minute * 32 + now.second / 2
    && vs[6] == (now.year - 1980) * 512 + now.month * 32 + now.day
    && vs[7] == checksum
    && vs[8] == vs[9] == (if |i.data| > ZIP64_LIMIT then 0xFFFF_FFFF else |i.data|)
    && vs[10] == |i.name| && vs[11] == (if Wide(i) then 20 else 0)
  }

  /** The local header of an item at a position of a file, its name, its ZIP64 field and its data. */
  predicate Stands(file: seq<byte>, at: nat, i: Item, now: DateTime, checksum: nat) {
    && at + 30 <= |file|
    && file[at..at + 4] == [0x50, 0x4B, 3, 4]
    && SaysItem(UnpackLocal(file[at..at + 30]), i, now, checksum)
    && SaysRest(file[at + 30..], i)
  }

  predicate SaysRest(rest: seq<byte>, i: Item) {
    && |rest| >= SizeOfItem(i) - 30 && rest[..|i.name|] == i.name
    && var more := rest[|i.name|..];
       && (Wide(i) ==> SaysSizes(more[..20], |i.data|))
       && more[if Wide(i) then 20 else 0..][..|i.data|] == i.data
  }

  /** A ZIP64 field that holds the size twice. */
  predicate SaysSizes(field: seq<byte>, size: nat) {
    && |field| == 20 && UnpackInt(field[..2]) == 1 && UnpackInt(field[2..4]) == 16
    && UnpackInt(field[4..12]) == size && UnpackInt(field[12..]) == size
  }

  // Proof.

  lemma {:induction false} PairOf(a: nat, b: nat)
    ensures Pack64([a, b]) == PackInt(a, 8) + PackInt(b, 8)
  {
    assert [a, b][1..] == [b] && [b][1..] == [];
  }

  lemma FieldSaysSizes(size: nat)
    requires size <= MAX64
    ensures SaysSizes(Zip64Field([size, size]), size)
  {
    PairOf(size, size);
    Powers();
    UnpackPackInt(1, 2);
    UnpackPackInt(16, 2);
    UnpackPackInt(size, 8);
    FieldSlices(PackInt(1, 2), PackInt(16, 2), PackInt(size, 8), PackInt(size, 8));
  }

  lemma FieldSlices(a: seq<byte>, b: seq<byte>, c: seq<byte>, d: seq<byte>)
    requires |a| == |b| == 2 && |c| == |d| == 8
    ensures var f := a + b + (c + d);
            f[..2] == a && f[2..4] == b && f[4..12] == c && f[12..] == d && |f| == 20
  {
  }

  lemma SignatureBytes()
    ensures PackInt(LOCAL_SIGNATURE, 4) == [0x50, 0x4B, 3, 4]
  {
    assert PackInt(LOCAL_SIGNATURE, 4) == [0x50] + PackInt(0x04034b, 3);
    assert PackInt(0x04034b, 3) == [0x4B] + PackInt(0x0403, 2);
    assert PackInt(0x0403, 2) == [3] + PackInt(4, 1);
    assert PackInt(4, 1) == [4] + PackInt(0, 0);
  }

  /** The fields of the header that writestr makes. */
  lemma HeaderValues(i: Item, now: DateTime, at: nat, crc32: Crc32)
    requires Good(i) && GoodTime(now)
    ensures ValidInfo(InfoAt(i, now, at, crc32))
    ensures LocalValues(InfoAt(i, now, at, crc32), Wide(i)) ==
            [LOCAL_SIGNATURE, if |i.data| > ZIP64_LIMIT then 45 else 20, 0, 0, 0,
             now.hour * 2048 + now.minute * 32 + now.second / 2, (now.year - 1980) * 512 + now.month * 32 + now.day,
             crc32(i.data, 0),
             if |i.data| > ZIP64_LIMIT then 0xFFFF_FFFF else |i.data|,
             if |i.data| > ZIP64_LIMIT then 0xFFFF_FFFF else |i.data|,
             |i.name|, if Wide(i) then 20 else 0]
    ensures LocalExtra(InfoAt(i, now, at, crc32), Wide(i)) == if Wide(i) then Zip64Field([|i.data|, |i.data|]) else []
  {
    InfoAtFits(i, now, at, crc32);
  }

  lemma PackedSays(vs: seq<nat>)
    requires Fits(LOCAL, vs) && vs[0] == LOCAL_SIGNATURE
    ensures UnpackLocal(PackLocal(vs)) == vs && PackLocal(vs)[..4] == [0x50, 0x4B, 3, 4]
  {
    UnpackLocalOf(vs);
    SignatureBytes();
    PackFirst(LOCAL, vs);
  }

  /** A packed header, wherever it stands. */
  lemma StandsBehind(
      before: seq<byte>, packed: seq<byte>, rest: seq<byte>, file: seq<byte>, i: Item, now: DateTime, checksum: nat)
    requires |packed| == 30 && packed[..4] == [0x50, 0x4B, 3, 4] && file == before + (packed + rest)
    requires SaysItem(UnpackLocal(packed), i, now, checksum) && SaysRest(rest, i)
    ensures Stands(file, |before|, i, now, checksum)
  {
    assert file[|before|..|before| + 30] == packed;
    assert file[|before|..|before| + 4] == packed[..4];
    assert file[|before| + 30..] == rest;
  }

  lemma RestOf(i: Item, extra: seq<byte>, after: seq<byte>)
    requires |extra| == (if Wide(i) then 20 else 0) && (Wide(i) ==> SaysSizes(extra, |i.data|))
    ensures SaysRest(i.name + (extra + (i.data + after)), i)
  {
    var rest := i.name + (extra + (i.data + after));
    assert rest[..|i.name|] == i.name && rest[|i.name|..] == extra + (i.data + after);
    assert (extra + (i.data + after))[..|extra|] == extra;
    assert (extra + (i.data + after))[|extra|..] == i.data + after;
    assert (i.data + after)[..|i.data|] == i.data;
  }

  lemma ValuesSay(i: Item, now: DateTime, at: nat, crc32: Crc32)
    requires Good(i) && GoodTime(now)
    ensures ValidInfo(InfoAt(i, now, at, crc32))
    ensures var vs := LocalValues(InfoAt(i, now, at, crc32), Wide(i));
            Fits(LOCAL, vs) && vs[0] == LOCAL_SIGNATURE && SaysItem(vs, i, now, crc32(i.data, 0))
  {
    HeaderValues(i, now, at, crc32);
    InfoAtFits(i, now, at, crc32);
    LocalFitsExactly(InfoAt(i, now, at, crc32), Wide(i));
  }

  /** A header with these fields, and what comes after it, whatever stands before. */
  lemma HeaderStands(
      i: Item, now: DateTime, checksum: nat, vs: seq<nat>, before: seq<byte>, after: seq<byte>, extra: seq<byte>,
      file: seq<byte>)
    requires Fits(LOCAL, vs) && vs[0] == LOCAL_SIGNATURE && SaysItem(vs, i, now, checksum)
    requires |extra| == (if Wide(i) then 20 else 0) && (Wide(i) ==> SaysSizes(extra, |i.data|))
    requires file == before + (PackLocal(vs) + i.name + extra + i.data) + after
    ensures Stands(file, |before|, i, now, checksum)
  {
    Chained(before, PackLocal(vs), i.name, extra, i.data, after);
    PackedSays(vs);
    RestOf(i, extra, after);
    StandsBehind(before, PackLocal(vs), i.name + (extra + (i.data + after)), file, i, now, checksum);
  }

  lemma ExtraSays(i: Item, now: DateTime, at: nat, crc32: Crc32)
    requires Good(i) && GoodTime(now)
    ensures var extra := LocalExtra(InfoAt(i, now, at, crc32), Wide(i));
            |extra| == (if Wide(i) then 20 else 0) && (Wide(i) ==> SaysSizes(extra, |i.data|))
  {
    HeaderValues(i, now, at, crc32);
    if Wide(i) {
      FieldSaysSizes(|i.data|);
    }
  }

  lemma MemberParts(i: Item, now: DateTime, at: nat, crc32: Crc32)
    requires Good(i) && GoodTime(now)
    ensures ValidInfo(InfoAt(i, now, at, crc32))
    ensures var z := InfoAt(i, now, at, crc32);
            MemberBytes(MemberAt(i, now, at, crc32))
            == PackLocal(LocalValues(z, Wide(i))) + i.name + LocalExtra(z, Wide(i)) + i.data
  {
    InfoAtFits(i, now, at, crc32);
  }

  lemma MemberStands(
      i: Item, now: DateTime, at: nat, crc32: Crc32, before: seq<byte>, after: seq<byte>, file: seq<byte>)
    requires Good(i) && GoodTime(now)
    requires file == before + MemberBytes(MemberAt(i, now, at, crc32)) + after
    ensures Stands(file, |before|, i, now, crc32(i.data, 0))
  {
    MemberParts(i, now, at, crc32);
    ValuesSay(i, now, at, crc32);
    ExtraSays(i, now, at, crc32);
    var z := InfoAt(i, now, at, crc32);
    HeaderStands(i, now, crc32(i.data, 0), LocalValues(z, Wide(i)), before, after, LocalExtra(z, Wide(i)), file);
  }

  lemma Chained(a: seq<byte>, b: seq<byte>, c: seq<byte>, d: seq<byte>, e: seq<byte>, f: seq<byte>)
    ensures a + (b + c + d + e) + f == a + (b + (c + (d + (e + f))))
  {
  }

  lemma MemberSize(i: Item, now: DateTime, at: nat, crc32: Crc32)
    requires Good(i) && GoodTime(now)
    ensures |MemberBytes(Storing(now, crc32)(i, at))| == SizeOfItem(i)
  {
    InfoAtFits(i, now, at, crc32);
    HeaderLength(InfoAt(i, now, at, crc32), Wide(i));
  }

  ghost predicate MakesSized(make: Maker) {
    forall i, at {:trigger make(i, at)} :: Good(i) ==> |MemberBytes(make(i, at))| == SizeOfItem(i)
  }

  lemma {:induction false} RowPlace(make: Maker, items: seq<Item>, start: nat)
    requires MakesSized(make) && AllGood(items)
    ensures |Body(Row(make, items, start))| == Place(items)
    decreases |items|
  {
    if items == [] {
    } else {
      var front, at := LastOfRow(make, items, start);
      RowPlace(make, items[..|items| - 1], start);
      OneMoreLength(front, make(items[|items| - 1], at));
    }
  }

  /** The i-th member of a row, and the members before it. */
  lemma {:induction false} RowAt(make: Maker, items: seq<Item>, start: nat, i: nat)
    requires i < |items|
    ensures var ms := Row(make, items, start);
            ms[..i] == Row(make, items[..i], start) && ms[i] == make(items[i], start + |Body(ms[..i])|)
    decreases |items|
  {
    var n := |items| - 1;
    var front, at := LastOfRow(make, items, start);
    if i == n {
    } else {
      RowAt(make, items[..n], start, i);
      assert items[..n][..i] == items[..i];
    }
  }

  /** The archive around one member. */
  lemma AroundMember(bytes: seq<byte>, base: seq<byte>, ms: seq<Member>, comment: seq<byte>, i: nat)
    returns (before: seq<byte>, after: seq<byte>)
    requires i < |ms| && IsArchive(bytes, base, ms, comment)
    ensures bytes == before + MemberBytes(ms[i]) + after && |before| == |base| + |Body(ms[..i])|
  {
    ShowArchive(bytes, base, ms, comment);
    var dir := Directory(Infos(ms));
    var ending := EndRecords(|ms|, |dir|, |base + Body(ms)|, comment);
    FlatAt(MemberBytes, ms, i);
    Regroup([], base, Body(ms[..i]), MemberBytes(ms[i]), Body(ms[i + 1..]), dir, ending);
    before, after := [] + base + Body(ms[..i]), Body(ms[i + 1..]) + dir + ending;
    assert [] + bytes == bytes;
  }

  lemma StoringSized(now: DateTime, crc32: Crc32)
    requires GoodTime(now)
    ensures MakesSized(Storing(now, crc32))
  {
    forall i: Item, at: nat | Good(i) ensures |MemberBytes(Storing(now, crc32)(i, at))| == SizeOfItem(i) {
      MemberSize(i, now, at, crc32);
    }
  }

  /** The item stands there. Looked into only for places that are shown. */
  ghost predicate StandsAt(file: seq<byte>, at: nat, i: Item, now: DateTime, checksum: nat) {
    forall p: (seq<byte>, nat) {:trigger Shown(p)} :: Shown(p) && p == (file, at) ==> Stands(p.0, p.1, i, now, checksum)
  }

  lemma ShowAt(file: seq<byte>, at: nat, i: Item, now: DateTime, checksum: nat)
    ensures StandsAt(file, at, i, now, checksum) <==> Stands(file, at, i, now, checksum)
  {
    assert Shown((file, at));
  }

  /** The same for what the writer made. */
  lemma MadeStands(
      m: Member, make: Maker, i: Item, now: DateTime, at: nat, crc32: Crc32, before: seq<byte>, after: seq<byte>,
      file: seq<byte>, place: nat)
    requires Good(i) && GoodTime(now) && Made(m, make, i, at) && make == Storing(now, crc32)
    requires file == before + MemberBytes(m) + after && place == |before|
    ensures StandsAt(file, place, i, now, crc32(i.data, 0))
  {
    OpenMade(m, Storing(now, crc32), i, at);
    MemberStands(i, now, at, crc32, before, after, file);
    ShowAt(file, |before|, i, now, crc32(i.data, 0));
  }

  /** Where the i-th item is, and what its member is. */
  lemma ItemPlace(make: Maker, items: seq<Item>, start: nat, ms: seq<Member>, i: nat)
    requires MakesSized(make) && AllGood(items) && i < |items| && IsRow(ms, make, items, start)
    ensures |ms| == |items| && |Body(ms[..i])| == Place(items[..i])
    ensures Made(ms[i], make, items[i], start + Place(items[..i]))
  {
    OpenRow(ms, make, items, start);
    RowAt(make, items, start, i);
    RowPlace(make, items[..i], start);
    OpenMade(ms[i], make, items[i], start + Place(items[..i]));
  }

  /** The archive around the i-th item. */
  lemma AroundItem(
      make: Maker, ms: seq<Member>, items: seq<Item>, comment: seq<byte>, base: seq<byte>, i: nat, bytes: seq<byte>)
    returns (before: seq<byte>, m: Member, after: seq<byte>)
    requires MakesSized(make) && AllGood(items) && i < |items| && IsRow(ms, make, items, |base|)
    requires IsArchive(bytes, base, ms, comment)
    ensures Made(m, make, items[i], |base| + Place(items[..i]))
    ensures bytes == before + MemberBytes(m) + after && |before| == |base| + Place(items[..i])
  {
    ItemPlace(make, items, |base|, ms, i);
    before, after := AroundMember(bytes, base, ms, comment, i);
    m := ms[i];
  }

  lemma PutBefore(pre: seq<byte>, before: seq<byte>, own: seq<byte>, after: seq<byte>)
    ensures pre + (before + own + after) == (pre + before) + own + after
  {
  }

  /** The same behind anything else. */
  lemma AroundMoved(
      make: Maker, ms: seq<Member>, items: seq<Item>, comment: seq<byte>, base: seq<byte>, pre: seq<byte>, i: nat,
      bytes: seq<byte>, file: seq<byte>, at: nat)
    returns (before: seq<byte>, m: Member, after: seq<byte>)
    requires MakesSized(make) && AllGood(items) && i < |items| && IsRow(ms, make, items, |base|)
    requires IsArchive(bytes, base, ms, comment)
    requires file == pre + bytes && at == |base| + Place(items[..i])
    ensures Made(m, make, items[i], at) && file == before + MemberBytes(m) + after && |before| == |pre| + at
  {
    before, m, after := AroundItem(make, ms, items, comment, base, i, bytes);
    PutBefore(pre, before, MemberBytes(m), after);
    before := pre + before;
  }

  lemma RowStands(
      make: Maker, ms: seq<Member>, items: seq<Item>, now: DateTime, comment: seq<byte>, base: seq<byte>,
      pre: seq<byte>, crc32: Crc32, i: nat, bytes: seq<byte>, file: seq<byte>, at: nat)
    requires AllGood(items) && GoodTime(now) && i < |items| && IsRow(ms, make, items, |base|)
    requires IsArchive(bytes, base, ms, comment) && make == Storing(now, crc32) && MakesSized(make)
    requires file == pre + bytes && at == |base| + Place(items[..i])
    ensures StandsAt(file, |pre| + at, items[i], now, crc32(items[i].data, 0))
  {
    var before, m, after := AroundMoved(make, ms, items, comment, base, pre, i, bytes, file, at);
    MadeStands(m, make, items[i], now, at, crc32, before, after, file, |pre| + at);
  }

  lemma WrittenArchive(
      items: seq<Item>, now: DateTime, comment: seq<byte>, base: seq<byte>, crc32: Crc32, bytes: seq<byte>)
    returns (ms: seq<Member>)
    requires Written(items, now, comment, base, crc32) == Ok(bytes)
    ensures IsRow(ms, Storing(now, crc32), items, |base|) && IsArchive(bytes, base, ms, comment)
  {
    ms := MembersOf(items, now, |base|, crc32);
    OpenRow(ms, Storing(now, crc32), items, |base|);
    ShowArchive(bytes, base, ms, comment);
  }

  /**
   In an archive that was written, behind anything else, each item has its local header, its name and its
   data where the items before it end: checksum, time and sizes are those of the item.
   */
  lemma WrittenStands(
      items: seq<Item>, now: DateTime, comment: seq<byte>, base: seq<byte>, pre: seq<byte>, crc32: Crc32, i: nat,
      bytes: seq<byte>, file: seq<byte>, at: nat)
    requires AllGood(items) && GoodTime(now) && i < |items|
    requires Written(items, now, comment, base, crc32) == Ok(bytes)
    requires file == pre + bytes && at == |base| + Place(items[..i])
    ensures StandsAt(file, |pre| + at, items[i], now, crc32(items[i].data, 0))
  {
    var ms := WrittenArchive(items, now, comment, base, crc32, bytes);
    StoringSized(now, crc32);
    RowStands(Storing(now, crc32), ms, items, now, comment, base, pre, crc32, i, bytes, file, at);
  }

  // The listing.

  /** What a reader's object says of the item, and where its header is. */
  predicate Describes(z: ZipInfo, i: Item, now: DateTime, at: int, checksum: nat)
    requires i.name != []
  {
    && z.name == z.origName == i.name && z.comment == []
    && z.date == now.(second := now.second / 2 * 2)
    && z.fileSize == z.compressSize == |i.data| && z.crc == checksum && z.headerOffset == at
    && z.compressType == 0 && z.flagBits == 0 && z.createSystem == 3 && z.internalAttr == 0
    && z.externalAttr == (if i.name[|i.name| - 1] == 0x2F then 0x41FD_0010 else 0x0180_0000)
    && z.extractVersion == z.createVersion == (if |i.data| > ZIP64_LIMIT || at > ZIP64_LIMIT then 45 else 20)
  }

  lemma SeenDescribes(i: Item, now: DateTime, at: nat, crc32: Crc32)
    requires Good(i) && GoodTime(now)
    ensures Describes(Seen(InfoAt(i, now, at, crc32), 0), i, now, at, crc32(i.data, 0))
  {
    InfoAtFits(i, now, at, crc32);
  }

  /** A listing moved by what was put before it. */
  lemma SightDescribes(m: Member, i: Item, now: DateTime, at: nat, crc32: Crc32, pre: nat)
    requires Good(i) && GoodTime(now) && Made(m, Storing(now, crc32), i, at)
    ensures var z := Sight(pre)(m.info);
            z.headerOffset == at + pre && Describes(z.(headerOffset := at), i, now, at, crc32(i.data, 0))
  {
    OpenMade(m, Storing(now, crc32), i, at);
    InfoAtFits(i, now, at, crc32);
    SeenDescribes(i, now, at, crc32);
  }

  lemma InfoListed(listing: Listing, pre: seq<byte>, base: seq<byte>, ms: seq<Member>, comment: seq<byte>, i: nat)
    requires i < |ms| && listing == ListingOf(pre, base, ms, comment)
    ensures listing.comment == comment && |listing.infos| == |ms| && listing.infos[i] == Sight(|pre|)(ms[i].info)
  {
  }

  lemma RowListed(
      ms: seq<Member>, items: seq<Item>, now: DateTime, start: nat, crc32: Crc32, pre: nat, i: nat)
    requires AllGood(items) && GoodTime(now) && i < |items| && IsRow(ms, Storing(now, crc32), items, start)
    ensures |ms| == |items|
    ensures var at := start + Place(items[..i]);
            var z := Sight(pre)(ms[i].info);
            z.headerOffset == at + pre && Describes(z.(headerOffset := at), items[i], now, at, crc32(items[i].data, 0))
  {
    StoringSized(now, crc32);
    ItemPlace(Storing(now, crc32), items, start, ms, i);
    SightDescribes(ms[i], items[i], now, start + Place(items[..i]), crc32, pre);
  }

  /** The listing of the archive of the items, and their members. */
  lemma {:induction false} ListingOfItems(
      items: seq<Item>, now: DateTime, comment: seq<byte>, base: seq<byte>, pre: seq<byte>, crc32: Crc32,
      file: seq<byte>)
    returns (ms: seq<Member>, listing: Listing)
    requires AllGood(items) && GoodTime(now) && |comment| <= ZIP_MAX_COMMENT
    requires |base| + Room(items) <= MAX64 && Clear(pre, base, MembersOf(items, now, |base|, crc32), comment)
    requires file == pre + Archive(base, MembersOf(items, now, |base|, crc32), comment)
    ensures IsRow(ms, Storing(now, crc32), items, |base|) && Contents(file) == Ok(listing)
    ensures listing == ListingOf(pre, base, ms, comment)
  {
    ms := MembersOf(items, now, |base|, crc32);
    listing := ListingOf(pre, base, ms, comment);
    NotTooLong(items, now, base, crc32);
    ItemsReadable(items, now, comment, base, ms, crc32);
    ContentsOf(file, pre, base, ms, comment, crc32);
    OpenRow(ms, Storing(now, crc32), items, |base|);
  }

  /**
   An archive whose end is found, behind anything else, is listed with its comment and with one object for
   each item: name, time, sizes, checksum, attributes and versions are those of the item, and its offset is
   where its header stands.
   */
  lemma {:induction false} WrittenListed(
      items: seq<Item>, now: DateTime, comment: seq<byte>, base: seq<byte>, pre: seq<byte>, crc32: Crc32, i: nat,
      file: seq<byte>)
    returns (listing: Listing)
    requires AllGood(items) && GoodTime(now) && |comment| <= ZIP_MAX_COMMENT && i < |items|
    requires |base| + Room(items) <= MAX64 && Clear(pre, base, MembersOf(items, now, |base|, crc32), comment)
    requires file == pre + Archive(base, MembersOf(items, now, |base|, crc32), comment)
    ensures Contents(file) == Ok(listing) && listing.comment == comment && |listing.infos| == |items|
    ensures var at := |base| + Place(items[..i]);
            && listing.infos[i].headerOffset == at + |pre|
            && Describes(listing.infos[i].(headerOffset := at), items[i], now, at, crc32(items[i].data, 0))
  {
    var ms;
    ms, listing := ListingOfItems(items, now, comment, base, pre, crc32, file);
    RowListed(ms, items, now, |base|, crc32, |pre|, i);
    InfoListed(listing, pre, base, ms, comment, i);
  }

  // The end records.

  function Least(a: nat, b: nat): nat {
    if a < b then a else b
  }

  /** The ZIP64 record (section 4.3.14 of the ZIP application note) and its locator, which says where it is. */
  predicate WideAt(file: seq<byte>, at: nat, count: nat, size: nat, offset: nat) {
    && at + 76 <= |file|
    && UnpackEnd64(file[at..at + 56]) == [0x06064b50, 44, 45, 45, 0, 0, count, count, size, offset]
    && UnpackLocator64(file[at + 56..at + 76]) == [0x07064b50, 0, at, 1]
  }

  /** The end record (section 4.3.16), whose numbers are cut to their fields, and the comment to the end. */
  predicate LastAt(file: seq<byte>, at: nat, count: nat, size: nat, offset: nat, comment: seq<byte>) {
    && at + 22 <= |file|
    && UnpackEnd(file[at..at + 22]) ==
       [0x06054b50, 0, 0, Least(count, 0xFFFF), Least(count, 0xFFFF), Least(size, 0xFFFF_FFFF),
        Least(offset, 0xFFFF_FFFF), |comment|]
    && file[at + 22..] == comment
  }

  predicate EndsAt(file: seq<byte>, at: nat, count: nat, size: nat, offset: nat, comment: seq<byte>) {
    if count > 0xFFFF || offset > ZIP64_LIMIT || size > ZIP64_LIMIT then
      WideAt(file, at, count, size, offset) && LastAt(file, at + 76, count, size, offset, comment)
    else LastAt(file, at, count, size, offset, comment)
  }

  lemma LastStands(
      file: seq<byte>, before: seq<byte>, at: nat, count: nat, size: nat, offset: nat, comment: seq<byte>)
    requires EndFits(count, size, offset, comment) && at == |before|
    requires file == before + LastRecord(count, size, offset, comment)
    ensures LastAt(file, at, count, size, offset, comment)
  {
    var vs := EndValues(count, size, offset, comment);
    EndValuesFit(count, size, offset, comment);
    UnpackEndOf(vs);
    RecordSlices(before, PackEnd(vs), comment);
  }

  lemma WideStands(file: seq<byte>, before: seq<byte>, count: nat, size: nat, offset: nat, rest: seq<byte>)
    requires EndFits(count, size, offset, []) && NeedsZip64(count, size, offset) && |before| == offset + size
    requires file == before + Zip64Records(count, size, offset) + rest
    ensures WideAt(file, |before|, count, size, offset)
  {
    var r, l := End64Values(count, size, offset), Locator64Values(offset + size);
    EndValuesFit(count, size, offset, []);
    Zip64Slices(before, PackEnd64(r), PackLocator64(l), rest);
    UnpackEnd64Of(r);
    UnpackLocator64Of(l);
  }

  lemma RecordsStand(file: seq<byte>, before: seq<byte>, count: nat, size: nat, offset: nat, comment: seq<byte>)
    requires EndFits(count, size, offset, comment) && |before| == offset + size
    requires file == before + EndRecords(count, size, offset, comment)
    ensures EndsAt(file, |before|, count, size, offset, comment)
  {
    var wide, last := Zip64Records(count, size, offset), LastRecord(count, size, offset, comment);
    Associate(before, wide, last);
    LastStands(file, before + wide, |before| + |wide|, count, size, offset, comment);
    if NeedsZip64(count, size, offset) {
      WideStands(file, before, count, size, offset, last);
    }
  }

  /** Every archive that can be closed ends that way, after its members and its directory. */
  lemma ArchiveEnds(base: seq<byte>, ms: seq<Member>, comment: seq<byte>)
    requires EndFits(|ms|, |Directory(Infos(ms))|, |base + Body(ms)|, comment)
    ensures EndsAt(Archive(base, ms, comment), |Front(base, ms)|, |ms|, |Directory(Infos(ms))|, |base + Body(ms)|,
                   comment)
  {
    RecordsStand(Archive(base, ms, comment), Front(base, ms), |ms|, |Directory(Infos(ms))|, |base + Body(ms)|, comment);
  }
}
