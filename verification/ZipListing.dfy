/** What the directory of a written archive holds for each item, byte by byte. */
module ZipListing {
  import opened Bits
  import opened Wrappers
  import opened ZipStruct
  import opened ZipExtra
  import opened ZipRecords
  import opened ZipEnd
  import opened ZipArchive
  import opened ZipItems
  import opened ZipRoundTrip
  import opened ZipLocal

  predicate Big(i: Item) {
    |i.data| > ZIP64_LIMIT
  }

  predicate Far(at: nat) {
    at > ZIP64_LIMIT
  }

  /** The length of the ZIP64 field: both sizes of a big item, and the place of one that is far away. */
  function WideSize(i: Item, at: nat): nat {
    if Big(i) || Far(at) then 4 + (if Big(i) then 16 else 0) + (if Far(at) then 8 else 0) else 0
  }

  /** The fields of an entry, as section 4.3.12 of the ZIP application note has them. */
  predicate Lists(vs: seq<nat>, i: Item, now: DateTime, at: nat, checksum: nat)
    requires i.name != [] && |vs| == 19
  {
    && vs[0] == 0x02014b50
    && vs[1] == vs[3] == (if Big(i) || Far(at) then 45 else 20) && vs[2] == 3
    && vs[4] == vs[5] == vs[6] == 0
    && vs[7] == now.hour * 2048 + now.minute * 32 + now.second / 2
    && vs[8] == (now.year - 1980) * 512 + now.month * 32 + now.day
    && vs[9] == checksum
    && vs[10] == vs[11] == (if Big(i) then 0xFFFF_FFFF else |i.data|)
    && vs[12] == |i.name| && vs[13] == WideSize(i, at)
    && vs[14] == vs[15] == vs[16] == 0
    && vs[17] == (if i.name[|i.name| - 1] == 0x2F then 0x41FD_0010 else 0x0180_0000)
    && vs[18] == (if Far(at) then 0xFFFF_FFFF else at)
  }

  /** A ZIP64 field with the numbers that have no room in the entry. */
  predicate HoldsWide(field: seq<byte>, i: Item, at: nat)
    requires |field| == WideSize(i, at) && (Big(i) || Far(at))
  {
    && UnpackInt(field[..2]) == 1 && UnpackInt(field[2..4]) == |field| - 4
    && (Big(i) ==> UnpackInt(field[4..12]) == UnpackInt(field[12..20]) == |i.data|)
    && (Far(at) ==> UnpackInt(field[|field| - 8..]) == at)
  }

  /** The entry of an item at a position: fields, name, ZIP64 field. */
  predicate Listed(file: seq<byte>, p: nat, i: Item, now: DateTime, at: nat, checksum: nat)
    requires i.name != []
  {
    && p + 46 + |i.name| + WideSize(i, at) <= |file|
    && Lists(UnpackCentral(file[p..p + 46]), i, now, at, checksum)
    && file[p + 46..][..|i.name|] == i.name
    && (Big(i) || Far(at) ==> HoldsWide(file[p + 46..][|i.name|..][..WideSize(i, at)], i, at))
  }

  function EntrySize(i: Item, at: nat): nat {
    46 + |i.name| + WideSize(i, at)
  }

  /** The bytes that the entries of items take, when the first item is stored at a position. */
  function ListPlace(items: seq<Item>, start: nat): nat {
    if items == [] then 0
    else
      var front := items[..|items| - 1];
      ListPlace(front, start) + EntrySize(items[|items| - 1], start + Place(front))
  }

  // Proof.

  lemma HeadOf(i: Item, now: DateTime, at: nat, crc32: Crc32)
    requires Good(i) && GoodTime(now)
    ensures var z := InfoAt(i, now, at, crc32);
            var version := if Big(i) || Far(at) then 45 else 20;
            z.headerOffset == at && CentralHead(z) == [0x02014b50, version, 3, version, 0, 0]
  {
    InfoAtFits(i, now, at, crc32);
  }

  lemma MiddleOf(i: Item, now: DateTime, at: nat, crc32: Crc32)
    requires Good(i) && GoodTime(now)
    ensures ValidInfo(InfoAt(i, now, at, crc32))
    ensures var size := if Big(i) then 0xFFFF_FFFF else |i.data|;
            CentralMiddle(InfoAt(i, now, at, crc32)) ==
            [0, now.hour * 2048 + now.minute * 32 + now.second / 2, (now.year - 1980) * 512 + now.month * 32 + now.day,
             crc32(i.data, 0), size, size]
  {
    InfoAtFits(i, now, at, crc32);
  }

  lemma TailOf(i: Item, now: DateTime, at: nat, crc32: Crc32)
    requires Good(i) && GoodTime(now)
    ensures var z := InfoAt(i, now, at, crc32);
            z.headerOffset == at && CentralTail(z) ==
            [|i.name|, WideSize(i, at), 0, 0, 0, if i.name[|i.name| - 1] == 0x2F then 0x41FD_0010 else 0x0180_0000,
             if Far(at) then 0xFFFF_FFFF else at]
  {
    InfoAtFits(i, now, at, crc32);
    WideLength(i, now, at, crc32);
  }

  lemma Nineteen(a: seq<nat>, b: seq<nat>, c: seq<nat>)
    requires |a| == |b| == 6 && |c| == 7
    ensures var vs := a + b + c;
            && (forall k :: 0 <= k < 6 ==> vs[k] == a[k]) && (forall k :: 6 <= k < 12 ==> vs[k] == b[k - 6])
            && (forall k :: 12 <= k < 19 ==> vs[k] == c[k - 12])
  {
  }

  lemma PartsList(
      head: seq<nat>, middle: seq<nat>, tail: seq<nat>, i: Item, now: DateTime, at: nat, checksum: nat, version: nat,
      size: nat)
    requires i.name != [] && 1980 <= now.year && version == (if Big(i) || Far(at) then 45 else 20)
    requires size == (if Big(i) then 0xFFFF_FFFF else |i.data|)
    requires head == [0x02014b50, version, 3, version, 0, 0]
    requires middle ==
             [0, now.hour * 2048 + now.minute * 32 + now.second / 2, (now.year - 1980) * 512 + now.month * 32 + now.day,
              checksum, size, size]
    requires tail ==
             [|i.name|, WideSize(i, at), 0, 0, 0, if i.name[|i.name| - 1] == 0x2F then 0x41FD_0010 else 0x0180_0000,
              if Far(at) then 0xFFFF_FFFF else at]
    ensures Lists(head + middle + tail, i, now, at, checksum)
  {
    Nineteen(head, middle, tail);
  }

  lemma CentralOf(i: Item, now: DateTime, at: nat, crc32: Crc32)
    requires Good(i) && GoodTime(now)
    ensures ValidInfo(InfoAt(i, now, at, crc32))
    ensures var vs := CentralValues(InfoAt(i, now, at, crc32));
            |vs| == 19 && Lists(vs, i, now, at, crc32(i.data, 0))
  {
    var z := InfoAt(i, now, at, crc32);
    HeadOf(i, now, at, crc32);
    MiddleOf(i, now, at, crc32);
    TailOf(i, now, at, crc32);
    PartsList(CentralHead(z), CentralMiddle(z), CentralTail(z), i, now, at, crc32(i.data, 0),
              if Big(i) || Far(at) then 45 else 20, if Big(i) then 0xFFFF_FFFF else |i.data|);
  }

  lemma WideLength(i: Item, now: DateTime, at: nat, crc32: Crc32)
    requires Good(i) && GoodTime(now)
    ensures var z := InfoAt(i, now, at, crc32);
            z.headerOffset == at && z.extra == [] && z.comment == [] && NumbersOf(z) == Numbers(|i.data|, |i.data|, at)
            && |CentralExtra(z.extra, NumbersOf(z))| == WideSize(i, at)
  {
    InfoAtFits(i, now, at, crc32);
    StripNothing();
  }

  lemma StripNothing()
    ensures Strip([]) == []
  {
  }

  function WideNumbers(i: Item, at: nat): (vs: seq<nat>)
    ensures |vs| <= 3
  {
    (if Big(i) then [|i.data|, |i.data|] else []) + if Far(at) then [at] else []
  }

  lemma {:induction false} OneOf(a: nat)
    ensures Pack64([a]) == PackInt(a, 8)
  {
    assert [a][1..] == [];
  }

  lemma {:induction false} ThreeOf(a: nat, b: nat, c: nat)
    ensures Pack64([a, b, c]) == PackInt(a, 8) + (PackInt(b, 8) + PackInt(c, 8))
  {
    assert [a, b, c][1..] == [b, c];
    PairOf(b, c);
  }

  lemma FarSlices(a: seq<byte>, b: seq<byte>, c: seq<byte>)
    requires |a| == |b| == 2 && |c| == 8
    ensures var f := a + b + c; f[..2] == a && f[2..4] == b && f[|f| - 8..] == c && |f| == 12
  {
  }

  lemma BothSlices(a: seq<byte>, b: seq<byte>, c: seq<byte>, d: seq<byte>, e: seq<byte>)
    requires |a| == |b| == 2 && |c| == |d| == |e| == 8
    ensures var f := a + b + (c + (d + e));
            f[..2] == a && f[2..4] == b && f[4..12] == c && f[12..20] == d && f[|f| - 8..] == e && |f| == 28
  {
  }

  lemma {:induction false} HeadNumbers(n: nat)
    requires n < 0x1_0000
    ensures UnpackInt(PackInt(1, 2)) == 1 && UnpackInt(PackInt(n, 2)) == n
  {
    Powers();
    UnpackPackInt(1, 2);
    UnpackPackInt(n, 2);
  }

  lemma {:induction false} LongNumber(n: nat)
    requires n <= MAX64
    ensures UnpackInt(PackInt(n, 8)) == n
  {
    Powers();
    UnpackPackInt(n, 8);
  }

  lemma BigHolds(i: Item, at: nat)
    requires |i.data| <= MAX64 && Big(i) && !Far(at)
    ensures var f := Zip64Field([|i.data|, |i.data|]); |f| == WideSize(i, at) && HoldsWide(f, i, at)
  {
    var n := |i.data|;
    PairOf(n, n);
    HeadNumbers(16);
    LongNumber(n);
    FieldSlices(PackInt(1, 2), PackInt(16, 2), PackInt(n, 8), PackInt(n, 8));
    var f := Zip64Field([n, n]);
    assert f[12..20] == f[12..];
  }

  lemma FarHolds(i: Item, at: nat)
    requires at <= MAX64 && !Big(i) && Far(at)
    ensures var f := Zip64Field([at]); |f| == WideSize(i, at) && HoldsWide(f, i, at)
  {
    OneOf(at);
    HeadNumbers(8);
    LongNumber(at);
    FarSlices(PackInt(1, 2), PackInt(8, 2), PackInt(at, 8));
  }

  lemma BothHold(i: Item, at: nat)
    requires |i.data| <= MAX64 && at <= MAX64 && Big(i) && Far(at)
    ensures var f := Zip64Field([|i.data|, |i.data|, at]); |f| == WideSize(i, at) && HoldsWide(f, i, at)
  {
    var n := |i.data|;
    ThreeOf(n, n, at);
    HeadNumbers(24);
    LongNumber(n);
    LongNumber(at);
    BothSlices(PackInt(1, 2), PackInt(24, 2), PackInt(n, 8), PackInt(n, 8), PackInt(at, 8));
  }

  lemma FieldHolds(i: Item, at: nat)
    requires |i.data| <= MAX64 && at <= MAX64 && (Big(i) || Far(at))
    ensures |Zip64Field(WideNumbers(i, at))| == WideSize(i, at)
    ensures HoldsWide(Zip64Field(WideNumbers(i, at)), i, at)
  {
    if !Far(at) {
      assert WideNumbers(i, at) == [|i.data|, |i.data|];
      BigHolds(i, at);
    } else if Big(i) {
      assert WideNumbers(i, at) == [|i.data|, |i.data|, at];
      BothHold(i, at);
    } else {
      assert WideNumbers(i, at) == [at];
      FarHolds(i, at);
    }
  }

  /** The parts of an entry. */
  lemma EntryParts(i: Item, now: DateTime, at: nat, crc32: Crc32)
    requires Good(i) && GoodTime(now)
    ensures ValidInfo(InfoAt(i, now, at, crc32))
    ensures var z := InfoAt(i, now, at, crc32);
            var field := if Big(i) || Far(at) then Zip64Field(WideNumbers(i, at)) else [];
            EntryBytes(z) == PackCentral(CentralValues(z)) + i.name + field && |field| == WideSize(i, at)
  {
    InfoAtFits(i, now, at, crc32);
    WideLength(i, now, at, crc32);
    StripNothing();
    var z := InfoAt(i, now, at, crc32);
    assert Escaped(NumbersOf(z)) == WideNumbers(i, at);
    var field := CentralExtra(z.extra, NumbersOf(z));
    assert field + [] == field;
    assert PackCentral(CentralValues(z)) + i.name + field + [] == PackCentral(CentralValues(z)) + i.name + field;
  }

  lemma PackedLists(i: Item, now: DateTime, at: nat, crc32: Crc32)
    requires Good(i) && GoodTime(now) && at <= MAX64
    ensures ValidInfo(InfoAt(i, now, at, crc32))
    ensures var packed := PackCentral(CentralValues(InfoAt(i, now, at, crc32)));
            |packed| == 46 && Lists(UnpackCentral(packed), i, now, at, crc32(i.data, 0))
  {
    CentralOf(i, now, at, crc32);
    WideLength(i, now, at, crc32);
    InfoAtFits(i, now, at, crc32);
    CentralFitsExactly(InfoAt(i, now, at, crc32));
    UnpackCentralOf(CentralValues(InfoAt(i, now, at, crc32)));
  }

  lemma EntrySplits(
      file: seq<byte>, before: seq<byte>, packed: seq<byte>, name: seq<byte>, field: seq<byte>, after: seq<byte>)
    requires |packed| == 46 && file == before + (packed + name + field) + after
    ensures var p := |before|;
            && p + 46 + |name| + |field| <= |file| && file[p..p + 46] == packed
            && file[p + 46..][..|name|] == name && file[p + 46..][|name|..][..|field|] == field
  {
    var p := |before|;
    assert file[p..p + 46] == packed;
    assert file[p + 46..] == name + field + after;
    assert file[p + 46..][|name|..] == field + after;
  }

  /** The entry of an item, wherever it stands. */
  lemma EntryListed(
      i: Item, now: DateTime, at: nat, crc32: Crc32, before: seq<byte>, after: seq<byte>, file: seq<byte>)
    requires Good(i) && GoodTime(now) && at <= MAX64
    requires file == before + EntryBytes(InfoAt(i, now, at, crc32)) + after
    ensures Listed(file, |before|, i, now, at, crc32(i.data, 0))
  {
    EntryParts(i, now, at, crc32);
    PackedLists(i, now, at, crc32);
    var field := if Big(i) || Far(at) then Zip64Field(WideNumbers(i, at)) else [];
    EntrySplits(file, before, PackCentral(CentralValues(InfoAt(i, now, at, crc32))), i.name, field, after);
    if Big(i) || Far(at) {
      FieldHolds(i, at);
    }
  }

  lemma EntrySizeOf(i: Item, now: DateTime, at: nat, crc32: Crc32)
    requires Good(i) && GoodTime(now)
    ensures |EntryBytes(Storing(now, crc32)(i, at).info)| == EntrySize(i, at)
  {
    EntryParts(i, now, at, crc32);
  }

  ghost predicate MakesEntries(make: Maker) {
    forall i, at {:trigger make(i, at)} :: Good(i) ==> |EntryBytes(make(i, at).info)| == EntrySize(i, at)
  }

  lemma StoringEntries(now: DateTime, crc32: Crc32)
    requires GoodTime(now)
    ensures MakesEntries(Storing(now, crc32))
  {
    forall i: Item, at: nat | Good(i) ensures |EntryBytes(Storing(now, crc32)(i, at).info)| == EntrySize(i, at) {
      EntrySizeOf(i, now, at, crc32);
    }
  }

  lemma InfosMore(front: seq<Member>, m: Member)
    ensures |Directory(Infos(front + [m]))| == |Directory(Infos(front))| + |EntryBytes(m.info)|
  {
    assert Infos(front + [m]) == Infos(front) + [m.info];
    FlatAppend(EntryBytes, Infos(front), m.info);
  }

  lemma {:induction false} RowListPlace(make: Maker, items: seq<Item>, start: nat)
    requires MakesSized(make) && MakesEntries(make) && AllGood(items)
    ensures |Directory(Infos(Row(make, items, start)))| == ListPlace(items, start)
    decreases |items|
  {
    if items == [] {
    } else {
      var n := |items| - 1;
      var front, at := LastOfRow(make, items, start);
      RowListPlace(make, items[..n], start);
      RowPlace(make, items[..n], start);
      InfosMore(front, make(items[n], at));
    }
  }

  /** The archive around one entry. */
  lemma AroundEntry(bytes: seq<byte>, base: seq<byte>, ms: seq<Member>, comment: seq<byte>, i: nat)
    returns (before: seq<byte>, after: seq<byte>)
    requires i < |ms| && IsArchive(bytes, base, ms, comment)
    ensures bytes == before + EntryBytes(ms[i].info) + after
    ensures |before| == |base| + |Body(ms)| + |Directory(Infos(ms[..i]))|
  {
    ShowArchive(bytes, base, ms, comment);
    var zs := Infos(ms);
    var ending := EndRecords(|ms|, |Directory(zs)|, |base + Body(ms)|, comment);
    FlatAt(EntryBytes, zs, i);
    assert zs[..i] == Infos(ms[..i]);
    before := base + Body(ms) + Directory(zs[..i]);
    after := Directory(zs[i + 1..]) + ending;
    PutAround(base + Body(ms), Directory(zs[..i]), EntryBytes(zs[i]), Directory(zs[i + 1..]), ending);
  }

  lemma PutAround(a: seq<byte>, b: seq<byte>, c: seq<byte>, d: seq<byte>, e: seq<byte>)
    ensures a + (b + c + d) + e == (a + b) + c + (d + e)
  {
  }

  /** Where an item and its entry are. Looked into only for items that are shown. */
  ghost predicate Stored(items: seq<Item>, i: nat, start: nat, at: nat, q: nat) {
    forall xs: seq<Item> {:trigger Shown(xs)} :: Shown(xs) && xs == items ==>
      i < |xs| && AllGood(xs) && at == start + Place(xs[..i]) && q == start + Place(xs) + ListPlace(xs[..i], start)
  }

  lemma {:induction false} ShowStored(items: seq<Item>, i: nat, start: nat, at: nat, q: nat)
    ensures Stored(items, i, start, at, q) <==>
            (i < |items| && AllGood(items) && at == start + Place(items[..i])
             && q == start + Place(items) + ListPlace(items[..i], start))
  {
    assert Shown(items);
  }

  lemma {:induction false} EntryAmounts(make: Maker, items: seq<Item>, start: nat, ms: seq<Member>, i: nat)
    requires MakesSized(make) && MakesEntries(make) && AllGood(items) && i < |items| && IsRow(ms, make, items, start)
    ensures |ms| == |items| && Made(ms[i], make, items[i], start + Place(items[..i]))
    ensures |Body(ms)| == Place(items) && |Directory(Infos(ms[..i]))| == ListPlace(items[..i], start)
  {
    OpenRow(ms, make, items, start);
    ItemPlace(make, items, start, ms, i);
    RowAt(make, items, start, i);
    RowPlace(make, items, start);
    RowListPlace(make, items[..i], start);
  }

  lemma MadeAt(make: Maker, items: seq<Item>, start: nat, ms: seq<Member>, i: nat, item: Item, at: nat)
    requires MakesSized(make) && IsRow(ms, make, items, start) && AllGood(items) && i < |items| && item == items[i]
    requires at == start + Place(items[..i])
    ensures |ms| == |items| && Made(ms[i], make, item, at)
  {
    ItemPlace(make, items, start, ms, i);
  }

  /** What the i-th entry was made from. */
  lemma EntryMade(make: Maker, items: seq<Item>, start: nat, ms: seq<Member>, i: nat, item: Item, at: nat, q: nat)
    requires MakesSized(make) && MakesEntries(make) && IsRow(ms, make, items, start)
    requires Stored(items, i, start, at, q) && i < |items| && item == items[i]
    ensures |ms| == |items| && Made(ms[i], make, item, at)
  {
    ShowStored(items, i, start, at, q);
    MadeAt(make, items, start, ms, i, item, at);
  }

  /** Where it is. */
  lemma EntryPlace(make: Maker, items: seq<Item>, start: nat, ms: seq<Member>, i: nat, at: nat, q: nat)
    requires MakesSized(make) && MakesEntries(make) && IsRow(ms, make, items, start)
    requires Stored(items, i, start, at, q) && i < |items| == |ms|
    ensures start + |Body(ms)| + |Directory(Infos(ms[..i]))| == q
  {
    ShowStored(items, i, start, at, q);
    EntryAmounts(make, items, start, ms, i);
  }

  /** The entry stands there. Looked into only for places that are shown. */
  ghost predicate ListedAt(file: seq<byte>, p: nat, i: Item, now: DateTime, at: nat, checksum: nat)
    requires i.name != []
  {
    forall q: (seq<byte>, int) {:trigger Shown(q)} :: Shown(q) && q == (file, p) ==>
      Listed(file, p, i, now, at, checksum)
  }

  lemma ShowListed(file: seq<byte>, p: nat, i: Item, now: DateTime, at: nat, checksum: nat)
    requires i.name != []
    ensures ListedAt(file, p, i, now, at, checksum) <==> Listed(file, p, i, now, at, checksum)
  {
    assert Shown<(seq<byte>, int)>((file, p));
  }

  lemma MadeListed(
      m: Member, make: Maker, i: Item, now: DateTime, at: nat, crc32: Crc32, before: seq<byte>, after: seq<byte>,
      file: seq<byte>, p: nat)
    requires Good(i) && GoodTime(now) && at <= MAX64 && Made(m, make, i, at) && make == Storing(now, crc32)
    requires file == before + EntryBytes(m.info) + after && p == |before|
    ensures ListedAt(file, p, i, now, at, crc32(i.data, 0))
  {
    OpenMade(m, Storing(now, crc32), i, at);
    EntryListed(i, now, at, crc32, before, after, file);
    ShowListed(file, p, i, now, at, crc32(i.data, 0));
  }

  /** The archive around the entry of the i-th item. */
  lemma AroundOwn(
      make: Maker, ms: seq<Member>, items: seq<Item>, comment: seq<byte>, base: seq<byte>, i: nat, bytes: seq<byte>,
      item: Item, at: nat, q: nat)
    returns (before: seq<byte>, m: Member, after: seq<byte>)
    requires MakesSized(make) && MakesEntries(make) && IsRow(ms, make, items, |base|)
    requires IsArchive(bytes, base, ms, comment)
    requires Stored(items, i, |base|, at, q) && i < |items| && item == items[i]
    ensures Made(m, make, item, at) && bytes == before + EntryBytes(m.info) + after && |before| == q
  {
    EntryMade(make, items, |base|, ms, i, item, at, q);
    EntryPlace(make, items, |base|, ms, i, at, q);
    before, after := AroundEntry(bytes, base, ms, comment, i);
    m := ms[i];
  }

  lemma RowLists(
      make: Maker, ms: seq<Member>, items: seq<Item>, now: DateTime, comment: seq<byte>, base: seq<byte>,
      pre: seq<byte>, crc32: Crc32, i: nat, bytes: seq<byte>, file: seq<byte>, item: Item, at: nat, q: nat)
    requires Good(item) && GoodTime(now) && IsRow(ms, make, items, |base|) && IsArchive(bytes, base, ms, comment)
    requires make == Storing(now, crc32) && MakesSized(make) && MakesEntries(make)
    requires Stored(items, i, |base|, at, q) && i < |items| && item == items[i]
    requires file == pre + bytes && at <= MAX64
    ensures ListedAt(file, |pre| + q, item, now, at, crc32(item.data, 0))
  {
    var before, m, after := AroundOwn(make, ms, items, comment, base, i, bytes, item, at, q);
    PutBefore(pre, before, EntryBytes(m.info), after);
    MadeListed(m, make, item, now, at, crc32, pre + before, after, file, |pre| + q);
  }

  lemma {:induction false} PartPlace(items: seq<Item>, i: nat)
    requires i <= |items|
    ensures Place(items[..i]) <= Place(items)
    decreases |items|
  {
    if i < |items| {
      PartPlace(items[..|items| - 1], i);
      assert items[..|items| - 1][..i] == items[..i];
    } else {
      assert items[..i] == items;
    }
  }

  /** What is written has places of 64 bits. */
  lemma PlaceFits(
      items: seq<Item>, now: DateTime, comment: seq<byte>, base: seq<byte>, crc32: Crc32, i: nat, bytes: seq<byte>)
    requires AllGood(items) && GoodTime(now) && i < |items|
    requires Written(items, now, comment, base, crc32) == Ok(bytes)
    ensures |base| + Place(items[..i]) <= MAX64
  {
    StoringSized(now, crc32);
    RowPlace(Storing(now, crc32), items, |base|);
    PartPlace(items, i);
  }

  /**
   In an archive that was written, behind anything else, each item has its entry in the directory, in order:
   its fields say name, time, checksum, sizes and place, and what is too large for them is in its ZIP64 field.
   */
  lemma {:induction false} DirectoryLists(
      items: seq<Item>, now: DateTime, comment: seq<byte>, base: seq<byte>, pre: seq<byte>, crc32: Crc32, i: nat,
      bytes: seq<byte>, file: seq<byte>, at: nat, q: nat)
    requires AllGood(items) && GoodTime(now) && i < |items|
    requires Written(items, now, comment, base, crc32) == Ok(bytes)
    requires file == pre + bytes && at == |base| + Place(items[..i])
    requires q == |base| + Place(items) + ListPlace(items[..i], |base|)
    ensures ListedAt(file, |pre| + q, items[i], now, at, crc32(items[i].data, 0))
  {
    PlaceFits(items, now, comment, base, crc32, i, bytes);
    var ms := WrittenArchive(items, now, comment, base, crc32, bytes);
    StoringSized(now, crc32);
    StoringEntries(now, crc32);
    ShowStored(items, i, |base|, at, q);
    RowLists(Storing(now, crc32), ms, items, now, comment, base, pre, crc32, i, bytes, file, items[i], at, q);
  }
}
