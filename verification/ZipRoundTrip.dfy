/** What the writer writes, the reader reads. */
module ZipRoundTrip {
  import opened Bits
  import opened Wrappers
  import opened ZipStruct
  import opened ZipRecords
  import opened ZipArchive
  import opened ZipItems
  import opened ZipWriter
  import ZipReader

  lemma EntryOf(ms: seq<Member>, items: seq<Item>, base: seq<byte>, crc32: Crc32, i: nat)
    requires Holds(ms, items) && Placed(ms, |base|) && AllValid(ms, crc32) && i < |ms|
    requires |base + Body(ms)| <= MAX64
    ensures Readable(Infos(ms)[i])
  {
    RangesDisjoint(ms, |base|, i, i);
    PlainReadable(ms[i].info, ms[i].zip64);
  }

  /** An archive of good items that is not too long can be closed, and its directory read. */
  lemma Closable(ms: seq<Member>, items: seq<Item>, base: seq<byte>, comment: seq<byte>, crc32: Crc32)
    requires Holds(ms, items) && Placed(ms, |base|) && AllValid(ms, crc32) && |comment| <= ZIP_MAX_COMMENT
    requires |base + Body(ms)| <= MAX64
    ensures AllReadable(Infos(ms)) && AllFit(Infos(ms))
  {
    forall i | 0 <= i < |ms| ensures Readable(Infos(ms)[i]) && EntryFits(Infos(ms)[i]) {
      EntryOf(ms, items, base, crc32, i);
    }
  }

  /** Closing fails only for the length of the archive. */
  lemma EndsWell(ms: seq<Member>, base: seq<byte>, comment: seq<byte>, crc32: Crc32)
    requires Placed(ms, |base|) && AllValid(ms, crc32) && |comment| <= ZIP_MAX_COMMENT
    requires |ms| <= |Directory(Infos(ms))|
    ensures ValidArchive(base, ms, comment, crc32) <==> !TooLong(base, ms)
    ensures EndFault(|ms|, |Directory(Infos(ms))|, |base + Body(ms)|, comment, true) == None <==> !TooLong(base, ms)
  {
  }

  lemma {:induction false} FlatLength<T>(bytes: T -> seq<byte>, ts: seq<T>)
    requires forall i :: 0 <= i < |ts| ==> bytes(ts[i]) != []
    ensures |ts| <= |Flat(bytes, ts)|
  {
    if ts == [] {
    } else {
      FlatLength(bytes, ts[1..]);
    }
  }

  lemma EntryNotEmpty(z: ZipInfo)
    requires EntryFits(z)
    ensures EntryBytes(z) != []
  {
    EntryLength(z);
  }

  lemma DirectoryLength(zs: seq<ZipInfo>)
    requires AllFit(zs)
    ensures |zs| <= |Directory(zs)|
  {
    forall i | 0 <= i < |zs| ensures EntryBytes(zs[i]) != [] {
      EntryNotEmpty(zs[i]);
    }
    FlatLength(EntryBytes, zs);
  }

  /** What closing comes to, when nothing but the members of good items is listed. */
  lemma CloseOutcome(w: Writer, items: seq<Item>)
    requires w.Valid() && w.allowZip64 && Holds(w.members, items)
    ensures w.CloseFault() == if TooLong(w.base, w.members) then Some(StructError) else None
  {
    if |w.base + Body(w.members)| <= MAX64 {
      Closable(w.members, items, w.base, w.comment, w.crc32);
      DirectoryLength(Infos(w.members));
      EndsWell(w.members, w.base, w.comment, w.crc32);
    }
  }

  lemma BodyEnds(w: Writer)
    requires w.Valid()
    ensures w.startDir == |w.base| + |Body(w.members)|
  {
  }

  lemma LastIsMade(w: Writer, count: nat, i: Item, now: DateTime, at: nat)
    requires w.Valid() && |w.members| == count + 1 && Good(i) && GoodTime(now)
    requires IsWritten(w.members[count], i.name, i.data, now, at, true, w.crc32)
    ensures Made(w.members[count], Storing(now, w.crc32), i, at)
  {
    WrittenIsMade(w.members[count], i, now, at, w.crc32);
  }

  method StoreItem(w: Writer, i: Item, now: DateTime)
    requires w.Valid() && !w.closed && !w.writing && w.allowZip64 && |w.content| == w.startDir
    requires Good(i) && GoodTime(now)
    modifies w
    ensures w.Valid() && !w.closed && !w.writing && |w.content| == w.startDir && w.comment == old(w.comment)
    ensures |w.members| == |old(w.members)| + 1 && w.members == old(w.members) + [w.members[|old(w.members)|]]
    ensures Made(w.members[|old(w.members)|], Storing(now, w.crc32), i, old(w.startDir))
  {
    GoodItemsAreStored(i, now, |w.members|, w.startDir);
    ghost var ms, at := w.members, w.startDir;
    var r := w.WriteStr(i.name, i.data, now);
    assert r.Ok?;
    LastIsMade(w, |ms|, i, now, at);
  }

  /** The next item: it is always stored, and the file stays without leftovers. */
  method AddItem(w: Writer, items: seq<Item>, i: nat, now: DateTime)
    requires w.Valid() && !w.closed && !w.writing && w.allowZip64 && |w.content| == w.startDir
    requires i < |items| && Good(items[i]) && GoodTime(now)
    requires IsRow(w.members, Storing(now, w.crc32), items[..i], |w.base|)
    modifies w
    ensures w.Valid() && !w.closed && !w.writing && |w.content| == w.startDir && w.comment == old(w.comment)
    ensures IsRow(w.members, Storing(now, w.crc32), items[..i + 1], |w.base|)
  {
    ghost var ms, at := w.members, w.startDir;
    BodyEnds(w);
    StoreItem(w, items[i], now);
    RowNext(Storing(now, w.crc32), ms, w.members[|ms|], items, i, |w.base|, at);
  }

  /** One writestr after the other. */
  method AddAll(w: Writer, items: seq<Item>, now: DateTime)
    requires w.Valid() && !w.closed && !w.writing && w.allowZip64 && |w.content| == w.startDir && w.members == []
    requires AllGood(items) && GoodTime(now)
    modifies w
    ensures w.Valid() && !w.closed && !w.writing && |w.content| == w.startDir && w.comment == old(w.comment)
    ensures IsRow(w.members, Storing(now, w.crc32), items, |w.base|)
  {
    OpenRow([], Storing(now, w.crc32), items[..0], |w.base|);
    for i := 0 to |items|
      invariant w.Valid() && !w.closed && !w.writing && |w.content| == w.startDir && w.comment == old(w.comment)
      invariant IsRow(w.members, Storing(now, w.crc32), items[..i], |w.base|)
    {
      AddItem(w, items, i, now);
    }
    assert items[..|items|] == items;
  }

  /** The bytes are the archive of the members. Looked into only for bytes that are shown. */
  ghost predicate IsArchive(bytes: seq<byte>, base: seq<byte>, ms: seq<Member>, comment: seq<byte>) {
    forall b {:trigger Shown(b)} :: Shown(b) && b == bytes ==> b == Archive(base, ms, comment)
  }

  lemma ShowArchive(bytes: seq<byte>, base: seq<byte>, ms: seq<Member>, comment: seq<byte>)
    ensures IsArchive(bytes, base, ms, comment) <==> bytes == Archive(base, ms, comment)
  {
    assert Shown(bytes);
  }

  /** The file holds the archive, when closing did not fail. */
  lemma ClosedWell(w: Writer, before: seq<byte>, items: seq<Item>)
    requires w.Valid() && w.allowZip64 && Holds(w.members, items) && w.CloseFault() == None
    requires w.Sealed(before) && |before| <= w.startDir
    ensures IsArchive(w.content, w.base, w.members, w.comment) && !TooLong(w.base, w.members)
  {
    CloseOutcome(w, items);
    w.NoTail(before);
    ShowArchive(w.content, w.base, w.members, w.comment);
  }

  lemma ClosedBadly(w: Writer, items: seq<Item>, e: ZipError)
    requires w.Valid() && w.allowZip64 && Holds(w.members, items) && w.CloseFault() == Some(e)
    ensures TooLong(w.base, w.members) && e == StructError
  {
    CloseOutcome(w, items);
  }

  /** Closing a file without leftovers gives the archive, unless that is longer than 64 bits can say. */
  method CloseAll(w: Writer, ghost items: seq<Item>) returns (r: Result<seq<byte>, ZipError>)
    requires w.Valid() && !w.closed && !w.writing && w.allowZip64 && |w.content| == w.startDir
    requires Holds(w.members, items)
    modifies w`content, w`pos, w`closed
    ensures r.Ok? <==> !TooLong(w.base, w.members)
    ensures r.Err? ==> r.error == StructError
    ensures r.Ok? ==> IsArchive(r.value, w.base, w.members, w.comment)
  {
    ghost var before := w.content;
    var closed := w.Close();
    if closed.Ok? {
      ClosedWell(w, before, items);
      r := Ok(w.content);
    } else {
      ClosedBadly(w, items, closed.error);
      r := Err(closed.error);
    }
  }

  /** What comes of storing the items and closing. */
  function Written(items: seq<Item>, now: DateTime, comment: seq<byte>, base: seq<byte>, crc32: Crc32)
    : Result<seq<byte>, ZipError>
  {
    var ms := MembersOf(items, now, |base|, crc32);
    if TooLong(base, ms) then Err(StructError) else Ok(Archive(base, ms, comment))
  }

  lemma WrittenIs(
      r: Result<seq<byte>, ZipError>, ms: seq<Member>, items: seq<Item>, now: DateTime, comment: seq<byte>,
      base: seq<byte>, crc32: Crc32)
    requires IsRow(ms, Storing(now, crc32), items, |base|) && (r.Ok? <==> !TooLong(base, ms))
    requires if r.Ok? then IsArchive(r.value, base, ms, comment) else r.error == StructError
    ensures r == Written(items, now, comment, base, crc32)
  {
    OpenRow(ms, Storing(now, crc32), items, |base|);
    if r.Ok? {
      ShowArchive(r.value, base, ms, comment);
    }
  }

  lemma MembersHold(ms: seq<Member>, items: seq<Item>, now: DateTime, start: nat, crc32: Crc32)
    requires AllGood(items) && GoodTime(now) && IsRow(ms, Storing(now, crc32), items, start)
    ensures Holds(ms, items)
  {
    OpenRow(ms, Storing(now, crc32), items, start);
    MembersInPlace(items, now, start, crc32);
  }

  /** Closing the file in which all items are stored. */
  method Finish(w: Writer, ghost items: seq<Item>, ghost now: DateTime) returns (r: Result<seq<byte>, ZipError>)
    requires w.Valid() && !w.closed && !w.writing && w.allowZip64 && |w.content| == w.startDir
    requires AllGood(items) && GoodTime(now) && IsRow(w.members, Storing(now, w.crc32), items, |w.base|)
    modifies w`content, w`pos, w`closed
    ensures r == Written(items, now, w.comment, w.base, w.crc32)
  {
    MembersHold(w.members, items, now, |w.base|, w.crc32);
    r := CloseAll(w, items);
    WrittenIs(r, w.members, items, now, w.comment, w.base, w.crc32);
  }

  /** Storing every item with writestr and closing gives the archive of the items, and no other bytes. */
  method WriteAll(items: seq<Item>, now: DateTime, comment: seq<byte>, base: seq<byte>, crc32: Crc32)
    returns (r: Result<seq<byte>, ZipError>)
    requires AllGood(items) && GoodTime(now) && |comment| <= ZIP_MAX_COMMENT
    ensures r == Written(items, now, comment, base, crc32)
  {
    var w := new Writer(base, true, crc32);
    w.SetComment(comment);
    AddAll(w, items, now);
    assert w.comment == comment;
    r := Finish(w, items, now);
  }

  type Reading = seq<byte> -> Result<seq<byte>, ZipError>

  /** read(name) of a reader that holds the listing. Compressed members are not part of this model. */
  function ReadName(file: seq<byte>, listing: Listing, crc32: Crc32, name: seq<byte>): Result<seq<byte>, ZipError> {
    if name !in listing.names then Err(KeyError)
    else if listing.names[name].compressType != 0 then Err(NotImplemented)
    else ReadMember(file, listing.names[name], crc32)
  }

  function Reads(file: seq<byte>, listing: Listing, crc32: Crc32): Reading {
    name => ReadName(file, listing, crc32, name)
  }

  function Named(z: ZipInfo): seq<byte> {
    z.name
  }

  /** Reading names one after the other, up to the first exception. */
  function ReadNames(read: Reading, names: seq<seq<byte>>): Result<seq<Item>, ZipError> {
    if names == [] then Ok([])
    else
      match read(names[0])
      case Err(e) => Err(e)
      case Ok(data) => Prepend([Item(names[0], data)], ReadNames(read, names[1..]))
  }

  /** What opening the bytes and reading every listed name comes to. */
  function AllRead(file: seq<byte>, crc32: Crc32): Result<seq<Item>, ZipError> {
    match Contents(file)
    case Err(e) => Err(e)
    case Ok(listing) => ReadNames(Reads(file, listing, crc32), Map(Named, listing.infos))
  }

  lemma {:induction false} ReadNext(read: Reading, names: seq<seq<byte>>, i: nat, found: seq<Item>)
    requires i < |names|
    ensures Prepend(found, ReadNames(read, names[i..])) ==
            match read(names[i])
            case Err(e) => Err(e)
            case Ok(data) => Prepend(found + [Item(names[i], data)], ReadNames(read, names[i + 1..]))
  {
    assert names[i..][1..] == names[i + 1..];
    if read(names[i]).Ok? {
      PrependTwice(found, [Item(names[i], read(names[i]).value)], ReadNames(read, names[i + 1..]));
    }
  }

  /** The reader reads as this function says. Looked into only for names that are shown. */
  ghost predicate ReadsAs(reader: ZipReader.Reader, read: Reading)
    reads reader
  {
    reader.startDir >= 0 &&
    forall n {:trigger Shown(n)} :: Shown(n) ==> read(n) == ReadName(reader.file, reader.Held(), reader.crc32, n)
  }

  /** Reading one name. */
  method ReadOne(reader: ZipReader.Reader, name: seq<byte>, ghost read: Reading)
    returns (r: Result<seq<byte>, ZipError>)
    requires ReadsAs(reader, read)
    ensures r == read(name)
  {
    assert Shown(name);
    if name in reader.nameToInfo && reader.nameToInfo[name].compressType != 0 {
      return Err(NotImplemented);
    }
    r := reader.Read(name);
  }

  method ReadEach(reader: ZipReader.Reader, names: seq<seq<byte>>, ghost read: Reading)
    returns (r: Result<seq<Item>, ZipError>)
    requires ReadsAs(reader, read)
    ensures r == ReadNames(read, names)
  {
    var found: seq<Item> := [];
    PrependNothing(ReadNames(read, names));
    assert names[0..] == names;
    for i := 0 to |names|
      invariant ReadNames(read, names) == Prepend(found, ReadNames(read, names[i..]))
    {
      ReadNext(read, names, i, found);
      var data := ReadOne(reader, names[i], read);
      if data.Err? {
        return Err(data.error);
      }
      found := found + [Item(names[i], data.value)];
    }
    assert found + [] == found;
    return Ok(found);
  }

  lemma HeldReads(reader: ZipReader.Reader)
    requires reader.startDir >= 0
    ensures ReadsAs(reader, Reads(reader.file, reader.Held(), reader.crc32))
  {
  }

  /** Listing a file and reading every name. */
  method ReadAll(file: seq<byte>, crc32: Crc32) returns (r: Result<seq<Item>, ZipError>)
    ensures r == AllRead(file, crc32)
  {
    var reader := new ZipReader.Reader(file, crc32);
    var loaded := reader.RealGetContents();
    if loaded.Ok? {
      HeldReads(reader);
      r := ReadEach(reader, Map(Named, reader.filelist), Reads(file, reader.Held(), crc32));
    } else {
      r := Err(loaded.error);
    }
  }

  lemma SightOf(z: ZipInfo, concat: int)
    requires ValidInfo(z)
    ensures Sight(concat)(z).name == z.name && Sight(concat)(z).compressType == 0
  {
  }

  /** The name is the item's, and reads as its data. Looked into only for names that are shown. */
  ghost predicate Gives(read: Reading, name: seq<byte>, item: Item) {
    forall n {:trigger Shown(n)} :: Shown(n) && n == name ==> n == item.name && read(n) == Ok(item.data)
  }

  lemma ShowGives(read: Reading, name: seq<byte>, item: Item)
    ensures Gives(read, name, item) <==> name == item.name && read(name) == Ok(item.data)
  {
    assert Shown(name);
  }

  lemma {:induction false} AllNamesRead(read: Reading, names: seq<seq<byte>>, items: seq<Item>)
    requires |names| == |items| && forall k :: 0 <= k < |items| ==> Gives(read, names[k], items[k])
    ensures ReadNames(read, names) == Ok(items)
  {
    if items == [] {
    } else {
      ShowGives(read, names[0], items[0]);
      AllNamesRead(read, names[1..], items[1..]);
      assert items == [items[0]] + items[1..];
    }
  }

  lemma AllReadIs(file: seq<byte>, crc32: Crc32, listing: Listing, items: seq<Item>)
    requires Contents(file) == Ok(listing)
    requires ReadNames(Reads(file, listing, crc32), Map(Named, listing.infos)) == Ok(items)
    ensures AllRead(file, crc32) == Ok(items)
  {
  }

  lemma ItemReads(
      file: seq<byte>, pre: seq<byte>, base: seq<byte>, ms: seq<Member>, comment: seq<byte>, crc32: Crc32,
      items: seq<Item>, i: nat)
    requires ValidArchive(base, ms, comment, crc32) && AllReadable(Infos(ms)) &&
             file == pre + Archive(base, ms, comment)
    requires Holds(ms, items) && Distinct(items) && Clear(pre, base, ms, comment) && i < |items|
    ensures var listing := ListingOf(pre, base, ms, comment);
            |listing.infos| == |items| && Gives(Reads(file, listing, crc32), listing.infos[i].name, items[i])
  {
    ContentsOf(file, pre, base, ms, comment, crc32);
    assert IsItem(ms[i], items[i]);
    forall j | i < j < |ms| ensures ms[j].info.name != ms[i].info.name {
      assert IsItem(ms[j], items[j]);
    }
    NamesOf(pre, base, ms, comment, crc32, i);
    SightOf(ms[i].info, |pre|);
    var listing := ListingOf(pre, base, ms, comment);
    ShowGives(Reads(file, listing, crc32), listing.infos[i].name, items[i]);
  }

  lemma ListingReads(file: seq<byte>, crc32: Crc32, listing: Listing, items: seq<Item>)
    requires Contents(file) == Ok(listing) && |listing.infos| == |items|
    requires forall i :: 0 <= i < |items| ==> Gives(Reads(file, listing, crc32), listing.infos[i].name, items[i])
    ensures AllRead(file, crc32) == Ok(items)
  {
    AllNamesRead(Reads(file, listing, crc32), Map(Named, listing.infos), items);
    AllReadIs(file, crc32, listing, items);
  }

  /** An archive of distinctly named items reads as these items, whatever is put before it. */
  lemma ArchiveReads(
      file: seq<byte>, pre: seq<byte>, base: seq<byte>, ms: seq<Member>, comment: seq<byte>, crc32: Crc32,
      items: seq<Item>)
    requires ValidArchive(base, ms, comment, crc32) && AllReadable(Infos(ms)) &&
             file == pre + Archive(base, ms, comment)
    requires Holds(ms, items) && Distinct(items) && Clear(pre, base, ms, comment)
    ensures AllRead(file, crc32) == Ok(items)
  {
    ContentsOf(file, pre, base, ms, comment, crc32);
    forall i | 0 <= i < |items|
      ensures var listing := ListingOf(pre, base, ms, comment);
              |listing.infos| == |items| && Gives(Reads(file, listing, crc32), listing.infos[i].name, items[i])
    {
      ItemReads(file, pre, base, ms, comment, crc32, items, i);
    }
    ListingReads(file, crc32, ListingOf(pre, base, ms, comment), items);
  }

  /** The archive of good items is one that can be closed, and its directory read. */
  lemma ItemsReadable(
      items: seq<Item>, now: DateTime, comment: seq<byte>, base: seq<byte>, ms: seq<Member>, crc32: Crc32)
    requires AllGood(items) && GoodTime(now) && |comment| <= ZIP_MAX_COMMENT
    requires ms == MembersOf(items, now, |base|, crc32) && !TooLong(base, ms)
    ensures ValidArchive(base, ms, comment, crc32) && AllReadable(Infos(ms)) && Holds(ms, items)
  {
    MembersInPlace(items, now, |base|, crc32);
    Closable(ms, items, base, comment, crc32);
    DirectoryLength(Infos(ms));
    EndsWell(ms, base, comment, crc32);
  }

  /**
   The round trip, as a statement about bytes: what writestr and close make of items with distinct good
   names, behind anything else, is read as the same items, in the same order, when its end can be found.
   */
  lemma {:induction false} WrittenReads(
      items: seq<Item>, now: DateTime, comment: seq<byte>, base: seq<byte>, pre: seq<byte>, crc32: Crc32)
    requires AllGood(items) && Distinct(items) && GoodTime(now) && |comment| <= ZIP_MAX_COMMENT
    requires |base| + Room(items) <= MAX64 && Clear(pre, base, MembersOf(items, now, |base|, crc32), comment)
    ensures Written(items, now, comment, base, crc32).Ok?
    ensures AllRead(pre + Written(items, now, comment, base, crc32).value, crc32) == Ok(items)
  {
    var ms := MembersOf(items, now, |base|, crc32);
    NotTooLong(items, now, base, crc32);
    ItemsReadable(items, now, comment, base, ms, crc32);
    ArchiveReads(pre + Archive(base, ms, comment), pre, base, ms, comment, crc32, items);
  }

  /** The same by running writer and reader: all items are stored, the file is closed, opened again and read. */
  method RoundTrip(
      items: seq<Item>, now: DateTime, comment: seq<byte>, base: seq<byte>, pre: seq<byte>, crc32: Crc32)
    returns (written: Result<seq<byte>, ZipError>, r: Result<seq<Item>, ZipError>)
    requires AllGood(items) && Distinct(items) && GoodTime(now) && |comment| <= ZIP_MAX_COMMENT
    ensures written == Written(items, now, comment, base, crc32)
    ensures r == if written.Ok? then AllRead(pre + written.value, crc32) else Err(written.error)
    ensures |base| + Room(items) <= MAX64 && Clear(pre, base, MembersOf(items, now, |base|, crc32), comment)
            ==> r == Ok(items)
  {
    if |base| + Room(items) <= MAX64 && Clear(pre, base, MembersOf(items, now, |base|, crc32), comment) {
      WrittenReads(items, now, comment, base, pre, crc32);
    }
    written := WriteAll(items, now, comment, base, crc32);
    if written.Err? {
      return written, Err(written.error);
    }
    r := ReadAll(pre + written.value, crc32);
  }
}
