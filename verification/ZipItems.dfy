/** What writestr makes of a list of names and data: the members of the archive, as a function of the input. */
module ZipItems {
  import opened Bits
  import opened Wrappers
  import ZipStruct
  import ZipExtra
  import opened ZipRecords
  import opened ZipArchive
  import opened ZipWriter

  datatype Item = Item(name: seq<byte>, data: seq<byte>)

  /** A name that is kept as it is and fits its field. No file has 2^64 bytes. */
  predicate Good(i: Item) {
    i.name != [] && |i.name| < 0x1_0000 && |i.data| <= ZipStruct.MAX64 && forall b :: b in i.name ==> 0 < b < 128
  }

  predicate AllGood(items: seq<Item>) {
    forall i :: 0 <= i < |items| ==> Good(items[i])
  }

  predicate GoodTime(d: DateTime) {
    ValidTime(d) && 1980 <= d.year <= 2107
  }

  predicate Distinct(items: seq<Item>) {
    forall i, j :: 0 <= i < j < |items| ==> items[i].name != items[j].name
  }

  /** With ZIP64 allowed, nothing is in the way of a good item. */
  lemma GoodItemsAreStored(i: Item, now: DateTime, count: nat, at: nat)
    requires Good(i) && GoodTime(now)
    ensures ValidName(i.name) && TruncateAtNul(i.name) == i.name
    ensures StrFault(i.name, |i.data|, now, true, count, at) == None
  {
  }

  /** The object of an item that is stored at a position. */
  function InfoAt(i: Item, now: DateTime, at: nat, crc32: Crc32): ZipInfo
    requires Good(i)
  {
    StoredInfo(i.name, i.data, now, at, crc32)
  }

  lemma InfoAtFits(i: Item, now: DateTime, at: nat, crc32: Crc32)
    requires Good(i) && GoodTime(now)
    ensures var z := InfoAt(i, now, at, crc32);
            && ValidInfo(z) && Plain(z) && LocalFits(z, UsesZip64(true, false, |i.data|))
            && z.name == i.name && z.headerOffset == at && z.flagBits == 0
            && z.fileSize == z.compressSize == |i.data| && z.crc == crc32(i.data, 0)
  {
  }

  /** The member of an item: its header has room for 64-bit sizes when the data is long. */
  function MemberAt(i: Item, now: DateTime, at: nat, crc32: Crc32): Member
    requires Good(i) && GoodTime(now)
  {
    InfoAtFits(i, now, at, crc32);
    var z, wide := InfoAt(i, now, at, crc32), UsesZip64(true, false, |i.data|);
    Member(z, wide, LocalHeader(z, wide), i.data)
  }

  type Maker = (Item, nat) -> Member

  /** Items stored one after the other, each where the ones before it end. */
  function Row(make: Maker, items: seq<Item>, start: nat): (ms: seq<Member>)
    ensures |ms| == |items|
  {
    if items == [] then []
    else
      var front := Row(make, items[..|items| - 1], start);
      front + [make(items[|items| - 1], start + |Body(front)|)]
  }

  /** Items that are not good make no member: the writer does not get them here. */
  function Storing(now: DateTime, crc32: Crc32): Maker {
    (i: Item, at: nat) =>
      if Good(i) && GoodTime(now) then MemberAt(i, now, at, crc32)
      else Member(NewInfo([], now), false, [], [])
  }

  /** The members of an archive of the items, when the first one is stored at `start`. */
  function MembersOf(items: seq<Item>, now: DateTime, start: nat, crc32: Crc32): (ms: seq<Member>)
    ensures |ms| == |items|
  {
    Row(Storing(now, crc32), items, start)
  }

  lemma MemberIsValid(i: Item, now: DateTime, at: nat, crc32: Crc32)
    requires Good(i) && GoodTime(now)
    ensures var m := MemberAt(i, now, at, crc32);
            && ValidMember(m, crc32) && m.info.headerOffset == at
            && m.info.name == i.name && m.data == i.data && Plain(m.info)
  {
    InfoAtFits(i, now, at, crc32);
    var m := MemberAt(i, now, at, crc32);
    ShowHeader(m.header, m.info, m.zip64);
  }

  /** A member that is valid and is what writestr makes of the item is the item's member. */
  lemma OnlyMember(m: Member, i: Item, now: DateTime, at: nat, crc32: Crc32)
    requires Good(i) && GoodTime(now) && ValidMember(m, crc32)
    requires m.info == InfoAt(i, now, at, crc32) && m.data == i.data && m.zip64 == UsesZip64(true, false, |i.data|)
    ensures m == MemberAt(i, now, at, crc32)
  {
    ShowHeader(m.header, m.info, m.zip64);
  }

  /** The member is the item. */
  predicate IsItem(m: Member, i: Item) {
    m.info.name == i.name && m.data == i.data && Plain(m.info)
  }

  predicate Holds(ms: seq<Member>, items: seq<Item>) {
    |ms| == |items| && forall i :: 0 <= i < |ms| ==> IsItem(ms[i], items[i])
  }

  lemma HoldsMore(ms: seq<Member>, m: Member, items: seq<Item>)
    requires items != [] && Holds(ms, items[..|items| - 1]) && IsItem(m, items[|items| - 1])
    ensures Holds(ms + [m], items)
  {
    forall k | 0 <= k < |items| ensures IsItem((ms + [m])[k], items[k]) {
      if k < |ms| {
        assert items[k] == items[..|items| - 1][k];
      }
    }
  }

  /** The maker turns every good item into a valid member that holds it, at the position given. */
  ghost predicate Makes(make: Maker, crc32: Crc32) {
    forall i, at {:trigger make(i, at)} :: Good(i) ==>
      ValidMember(make(i, at), crc32) && make(i, at).info.headerOffset == at && IsItem(make(i, at), i)
  }

  lemma LastOfRow(make: Maker, items: seq<Item>, start: nat) returns (front: seq<Member>, at: nat)
    requires items != []
    ensures front == Row(make, items[..|items| - 1], start) && at == start + |Body(front)|
    ensures Row(make, items, start) == front + [make(items[|items| - 1], at)]
  {
    front := Row(make, items[..|items| - 1], start);
    at := start + |Body(front)|;
  }

  lemma OneMore(front: seq<Member>, m: Member, start: nat, items: seq<Item>, crc32: Crc32)
    requires items != [] && Placed(front, start) && AllValid(front, crc32) && Holds(front, items[..|items| - 1])
    requires ValidMember(m, crc32) && m.info.headerOffset == start + |Body(front)| && IsItem(m, items[|items| - 1])
    ensures Placed(front + [m], start) && AllValid(front + [m], crc32) && Holds(front + [m], items)
  {
    PlacedAppend(front, start, m);
    HoldsMore(front, m, items);
  }

  lemma {:induction false} RowInPlace(make: Maker, items: seq<Item>, start: nat, crc32: Crc32)
    requires Makes(make, crc32) && AllGood(items)
    ensures var ms := Row(make, items, start);
            Placed(ms, start) && AllValid(ms, crc32) && Holds(ms, items)
    decreases |items|
  {
    if items == [] {
    } else {
      var front, at := LastOfRow(make, items, start);
      RowInPlace(make, items[..|items| - 1], start, crc32);
      OneMore(front, make(items[|items| - 1], at), start, items, crc32);
    }
  }

  lemma {:induction false} RowMore(make: Maker, items: seq<Item>, start: nat, i: nat)
    requires i < |items|
    ensures var front := Row(make, items[..i], start);
            Row(make, items[..i + 1], start) == front + [make(items[i], start + |Body(front)|)]
  {
    assert items[..i + 1][..i] == items[..i];
  }

  lemma StoringMakes(now: DateTime, crc32: Crc32)
    requires GoodTime(now)
    ensures Makes(Storing(now, crc32), crc32)
  {
    forall i: Item, at: nat | Good(i)
      ensures var m := Storing(now, crc32)(i, at);
              ValidMember(m, crc32) && m.info.headerOffset == at && IsItem(m, i)
    {
      MemberIsValid(i, now, at, crc32);
    }
  }

  /** The members hold the items in order, one after the other, each with a header that agrees with it. */
  lemma MembersInPlace(items: seq<Item>, now: DateTime, start: nat, crc32: Crc32)
    requires AllGood(items) && GoodTime(now)
    ensures var ms := MembersOf(items, now, start, crc32);
            Placed(ms, start) && AllValid(ms, crc32) && Holds(ms, items)
  {
    StoringMakes(now, crc32);
    RowInPlace(Storing(now, crc32), items, start, crc32);
  }

  /** The members are a row. Looked into only for lists of members that are shown. */
  ghost predicate IsRow(ms: seq<Member>, make: Maker, items: seq<Item>, start: nat) {
    forall x {:trigger Shown(x)} :: Shown(x) && x == ms ==> x == Row(make, items, start)
  }

  lemma {:induction false} OpenRow(ms: seq<Member>, make: Maker, items: seq<Item>, start: nat)
    ensures IsRow(ms, make, items, start) <==> ms == Row(make, items, start)
  {
    assert Shown(ms);
  }

  /** The same for one member. */
  ghost predicate Made(m: Member, make: Maker, i: Item, at: nat) {
    forall x {:trigger Shown(x)} :: Shown(x) && x == [m] ==> m == make(i, at)
  }

  lemma OpenMade(m: Member, make: Maker, i: Item, at: nat)
    ensures Made(m, make, i, at) <==> m == make(i, at)
  {
    assert Shown([m]);
  }

  lemma RowNext(make: Maker, ms: seq<Member>, m: Member, items: seq<Item>, i: nat, start: nat, at: nat)
    requires i < |items| && IsRow(ms, make, items[..i], start)
    requires at == start + |Body(ms)| && Made(m, make, items[i], at)
    ensures IsRow(ms + [m], make, items[..i + 1], start)
  {
    OpenRow(ms, make, items[..i], start);
    OpenMade(m, make, items[i], at);
    RowMore(make, items, start, i);
    OpenRow(ms + [m], make, items[..i + 1], start);
  }

  /** What writestr lists for a good item is the item's member. */
  lemma WrittenIsMade(m: Member, i: Item, now: DateTime, at: nat, crc32: Crc32)
    requires Good(i) && GoodTime(now) && ValidMember(m, crc32)
    requires IsWritten(m, i.name, i.data, now, at, true, crc32)
    ensures Made(m, Storing(now, crc32), i, at)
  {
    ShowWritten(m, i.name, i.data, now, at, true, crc32);
    OnlyMember(m, i, now, at, crc32);
    OpenMade(m, Storing(now, crc32), i, at);
  }

  /** Everything before the end records is longer than 64 bits can say. */
  predicate TooLong(base: seq<byte>, ms: seq<Member>) {
    |base + Body(ms)| + |Directory(Infos(ms))| > ZipStruct.MAX64
  }

  /** What the members and the directory of the items take at most. */
  function Room(items: seq<Item>): nat {
    if items == [] then 0
    else
      var last := items[|items| - 1];
      Room(items[..|items| - 1]) + 124 + 2 * |last.name| + |last.data|
  }

  lemma ExtraLength(z: ZipInfo)
    requires z.headerOffset >= 0
    ensures |ZipExtra.CentralExtra([], NumbersOf(z))| <= 28
  {
  }

  predicate Small(m: Member, i: Item) {
    |MemberBytes(m)| + |EntryBytes(m.info)| <= 124 + 2 * |i.name| + |i.data|
  }

  lemma MemberLength(i: Item, now: DateTime, at: nat, crc32: Crc32)
    requires Good(i) && GoodTime(now)
    ensures Small(Storing(now, crc32)(i, at), i)
  {
    InfoAtFits(i, now, at, crc32);
    var m := MemberAt(i, now, at, crc32);
    HeaderLength(m.info, m.zip64);
    EntryLength(m.info);
    ExtraLength(m.info);
  }

  ghost predicate MakesSmall(make: Maker) {
    forall i, at {:trigger make(i, at)} :: Good(i) ==> Small(make(i, at), i)
  }

  lemma OneMoreLength(front: seq<Member>, m: Member)
    ensures |Body(front + [m])| == |Body(front)| + |MemberBytes(m)|
    ensures |Directory(Infos(front + [m]))| == |Directory(Infos(front))| + |EntryBytes(m.info)|
  {
    FlatAppend(MemberBytes, front, m);
    InfosAppend(front, m);
    FlatAppend(EntryBytes, Infos(front), m.info);
  }

  lemma {:induction false} RowLength(make: Maker, items: seq<Item>, start: nat)
    requires MakesSmall(make) && AllGood(items)
    ensures var ms := Row(make, items, start);
            |Body(ms)| + |Directory(Infos(ms))| <= Room(items)
    decreases |items|
  {
    if items == [] {
    } else {
      var front, at := LastOfRow(make, items, start);
      RowLength(make, items[..|items| - 1], start);
      OneMoreLength(front, make(items[|items| - 1], at));
    }
  }

  /** A bound on the length of an archive, from the lengths of names and data. */
  lemma {:induction false} RoomSuffices(items: seq<Item>, now: DateTime, start: nat, crc32: Crc32)
    requires AllGood(items) && GoodTime(now)
    ensures var ms := MembersOf(items, now, start, crc32);
            |Body(ms)| + |Directory(Infos(ms))| <= Room(items)
  {
    forall i: Item, at: nat | Good(i) ensures Small(Storing(now, crc32)(i, at), i) {
      MemberLength(i, now, at, crc32);
    }
    RowLength(Storing(now, crc32), items, start);
  }

  /** An archive of the items fits 64 bits when this bound does. */
  lemma {:induction false} NotTooLong(items: seq<Item>, now: DateTime, base: seq<byte>, crc32: Crc32)
    requires AllGood(items) && GoodTime(now) && |base| + Room(items) <= ZipStruct.MAX64
    ensures !TooLong(base, MembersOf(items, now, |base|, crc32))
  {
    RoomSuffices(items, now, |base|, crc32);
  }
}
