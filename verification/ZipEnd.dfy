/** Finding the end records of an archive (sections 4.3.14 to 4.3.16 of the ZIP application note). */
module ZipEnd {
  import opened Bits
  import opened Wrappers
  import opened ZipStruct
  import opened ZipRecords

  const END_MAGIC: seq<byte> := [0x50, 0x4B, 5, 6]

  /** The list that _EndRecData returns; zip64 tells which signature is in it. */
  datatype EndRecord = EndRecord(
    zip64: bool, disk: nat, startDisk: nat, entriesThisDisk: nat, entriesTotal: nat, size: nat, offset: nat,
    commentSize: nat, comment: seq<byte>, location: nat)

  predicate MagicAt(s: seq<byte>, i: nat) {
    i + 4 <= |s| && s[i..i + 4] == END_MAGIC
  }

  /** rfind, among the positions below n. */
  function LastMagic(s: seq<byte>, n: nat): (r: Option<nat>)
    ensures r.Some? ==> r.value < n && MagicAt(s, r.value) && forall i :: r.value < i < n ==> !MagicAt(s, i)
    ensures r.None? ==> forall i: nat :: i < n ==> !MagicAt(s, i)
  {
    if n == 0 then None else if MagicAt(s, n - 1) then Some(n - 1) else LastMagic(s, n - 1)
  }

  function FromEnd(vs: seq<nat>, comment: seq<byte>, location: nat): EndRecord
    requires |vs| == |END|
  {
    EndRecord(false, vs[1], vs[2], vs[3], vs[4], vs[5], vs[6], vs[7], comment, location)
  }

  /** The search of _EndRecData: a record that ends the file and has no comment, else the last magic number. */
  function Search(file: seq<byte>): Option<EndRecord> {
    if |file| < 22 then None
    else
      var last := file[|file| - 22..];
      if last[..4] == END_MAGIC && last[20..] == [0, 0] then Some(FromEnd(UnpackEnd(last), [], |file| - 22))
      else
        SearchData(file[SearchFrom(file)..], SearchFrom(file))
  }

  function SearchFrom(file: seq<byte>): (from: nat)
    ensures from <= |file|
  {
    if |file| > 65558 then |file| - 65558 else 0
  }

  /** The record at the last magic number of the data, which begins at position `from` of the file. */
  function SearchData(data: seq<byte>, from: nat): Option<EndRecord> {
    match LastMagic(data, |data|)
    case None => None
    case Some(start) =>
      if start + 22 > |data| then None
      else
        var vs := UnpackEnd(data[start..start + 22]);
        Some(FromEnd(vs, Take(data[start + 22..], vs[7]), from + start))
  }

  /** _EndRecData64: the ZIP64 records just before the end record, if they are there, replace its numbers. */
  function Widen(file: seq<byte>, e: EndRecord): Result<EndRecord, ZipError>
    requires e.location <= |file|
  {
    var loc := e.location;
    if loc < 20 then Ok(e)
    else
      var lv := UnpackLocator64(file[loc - 20..loc]);
      if lv[0] != LOCATOR64_SIGNATURE then Ok(e)
      else if lv[1] != 0 || lv[3] > 1 then Err(BadZipFile)
      else if loc < 76 then Err(BadZipFile)
      else
        var rv := UnpackEnd64(file[loc - 76..loc - 20]);
        if rv[0] != END64_SIGNATURE then Ok(e)
        else Ok(e.(zip64 := true, disk := rv[4], startDisk := rv[5], entriesThisDisk := rv[6],
                   entriesTotal := rv[7], size := rv[8], offset := rv[9]))
  }

  /** _EndRecData, as _RealGetContents uses it: not finding a record is an error too. */
  function FindEnd(file: seq<byte>): Result<EndRecord, ZipError> {
    match Search(file)
    case None => Err(BadZipFile)
    case Some(e) => Widen(file, e)
  }

  // Where the search ends up.

  predicate ValidEnd(vs: seq<nat>, comment: seq<byte>) {
    Fits(END, vs) && vs[0] == END_SIGNATURE && vs[7] == |comment|
  }

  /** The magic number does not occur again in the numbers of the record or in the comment. */
  ghost predicate MagicOnlyFirst(record: seq<byte>) {
    forall i :: 1 <= i < |record| ==> !MagicAt(record, i)
  }

  lemma MagicBytes()
    ensures PackInt(END_SIGNATURE, 4) == END_MAGIC
  {
    assert PackInt(END_SIGNATURE, 4) == [0x50] + PackInt(0x06054b, 3);
    assert PackInt(0x06054b, 3) == [0x4B] + PackInt(0x0605, 2);
    assert PackInt(0x0605, 2) == [5] + PackInt(6, 1);
    assert PackInt(6, 1) == [6] + PackInt(0, 0);
  }

  lemma EndBytes(vs: seq<nat>, comment: seq<byte>)
    requires ValidEnd(vs, comment)
    ensures PackEnd(vs)[..4] == END_MAGIC
    ensures UnpackEnd(PackEnd(vs)) == vs
    ensures comment == [] ==> PackEnd(vs)[20..] == [0, 0]
  {
    MagicBytes();
    UnpackEndOf(vs);
    assert END[1..] == [2, 2, 2, 2, 4, 4, 2];
    PackFirst(END, vs);
    PackLast(END, vs);
    assert PackInt(0, 2) == [0] + PackInt(0, 1) && PackInt(0, 1) == [0] + PackInt(0, 0);
  }

  lemma {:induction false} PackFirst(f: Format, vs: seq<nat>)
    requires f != [] && |f| == |vs|
    ensures f[0] <= |Pack(f, vs)| && Pack(f, vs)[..f[0]] == PackInt(vs[0], f[0])
  {
  }

  lemma {:induction false} PackLast(f: Format, vs: seq<nat>)
    requires f != [] && |f| == |vs|
    ensures var n := |f| - 1;
            f[n] <= |Pack(f, vs)| && Pack(f, vs)[|Pack(f, vs)| - f[n]..] == PackInt(vs[n], f[n])
    decreases |f|
  {
    if |f| > 1 {
      PackLast(f[1..], vs[1..]);
    } else {
      assert Pack(f[1..], vs[1..]) == [];
    }
  }

  lemma MagicShift(before: seq<byte>, rest: seq<byte>, i: nat)
    ensures MagicAt(before + rest, |before| + i) <==> MagicAt(rest, i)
  {
    if i + 4 <= |rest| {
      assert (before + rest)[|before| + i..|before| + i + 4] == rest[i..i + 4];
    }
  }

  /** Without a comment the record is found at once. */
  lemma SearchPlain(before: seq<byte>, vs: seq<nat>)
    requires ValidEnd(vs, [])
    ensures Search(before + PackEnd(vs)) == Some(FromEnd(vs, [], |before|))
  {
    var file := before + PackEnd(vs);
    EndBytes(vs, []);
    assert file[|file| - 22..] == PackEnd(vs);
  }

  /** The part of the file that is searched, split at the record. */
  lemma SearchedPart(before: seq<byte>, record: seq<byte>, from: nat)
    requires from <= |before|
    ensures (before + record)[from..] == before[from..] + record
  {
  }

  lemma {:induction false} LastMagicIs(data: seq<byte>, start: nat)
    requires MagicAt(data, start)
    requires forall i :: start < i < |data| ==> !MagicAt(data, i)
    ensures LastMagic(data, |data|) == Some(start)
  {
  }

  /** The last 22 bytes do not pass for a record: they would begin with a second magic number. */
  lemma NotPlain(before: seq<byte>, record: seq<byte>)
    requires |record| > 22 && MagicOnlyFirst(record)
    ensures (before + record)[|before| + |record| - 22..][..4] != END_MAGIC
  {
    var k := |record| - 22;
    assert !MagicAt(record, k);
    assert (before + record)[|before| + k..][..4] == record[k..k + 4];
  }

  lemma RecordSlices(front: seq<byte>, packed: seq<byte>, comment: seq<byte>)
    requires |packed| == 22
    ensures (front + (packed + comment))[|front|..|front| + 22] == packed
    ensures (front + (packed + comment))[|front| + 22..] == comment
  {
  }

  /** The magic number of the record is the last one of the part that is searched. */
  lemma {:induction false} LastMagicOf(front: seq<byte>, record: seq<byte>)
    requires MagicAt(record, 0) && MagicOnlyFirst(record)
    ensures LastMagic(front + record, |front + record|) == Some(|front|)
  {
    MagicShift(front, record, 0);
    forall i | |front| < i < |front + record| ensures !MagicAt(front + record, i) {
      MagicShift(front, record, i - |front|);
    }
    LastMagicIs(front + record, |front|);
  }

  lemma SearchDataOf(front: seq<byte>, vs: seq<nat>, comment: seq<byte>, from: nat)
    requires ValidEnd(vs, comment) && MagicOnlyFirst(PackEnd(vs) + comment)
    ensures SearchData(front + (PackEnd(vs) + comment), from) == Some(FromEnd(vs, comment, from + |front|))
  {
    var packed := PackEnd(vs);
    EndBytes(vs, comment);
    assert (packed + comment)[0..4] == packed[..4];
    LastMagicOf(front, packed + comment);
    RecordSlices(front, packed, comment);
    assert Take(comment, vs[7]) == comment;
  }

  /** With a comment the search goes by the magic number: it finds the record if no other one follows. */
  lemma SearchCommented(before: seq<byte>, vs: seq<nat>, comment: seq<byte>)
    requires ValidEnd(vs, comment) && 0 < |comment| <= ZIP_MAX_COMMENT
    requires MagicOnlyFirst(PackEnd(vs) + comment)
    ensures Search(before + (PackEnd(vs) + comment)) == Some(FromEnd(vs, comment, |before|))
  {
    var record := PackEnd(vs) + comment;
    var file := before + record;
    NotPlain(before, record);
    var from := SearchFrom(file);
    SearchedPart(before, record, from);
    SearchDataOf(before[from..], vs, comment, from);
  }

  /** Any later magic number makes the search end elsewhere. */
  lemma SearchMisled(before: seq<byte>, vs: seq<nat>, comment: seq<byte>, i: nat)
    requires ValidEnd(vs, comment) && 0 < |comment| <= ZIP_MAX_COMMENT
    requires i >= 1 && MagicAt(PackEnd(vs) + comment, i)
    ensures var r := Search(before + (PackEnd(vs) + comment)); r.Some? ==> r.value.location != |before|
  {
    var record := PackEnd(vs) + comment;
    var file := before + record;
    var from := SearchFrom(file);
    SearchedPart(before, record, from);
    MagicShift(before[from..], record, i);
    assert MagicAt(file[from..], |before| - from + i);
  }

  /**
   The record that closes an archive is found, with its numbers and its comment, if and only if there is
   no comment or the magic number does not occur again after the record's own.
   */
  lemma SearchFindsRecord(before: seq<byte>, vs: seq<nat>, comment: seq<byte>)
    requires ValidEnd(vs, comment) && |comment| <= ZIP_MAX_COMMENT
    ensures Search(before + (PackEnd(vs) + comment)) == Some(FromEnd(vs, comment, |before|))
       <==> comment == [] || MagicOnlyFirst(PackEnd(vs) + comment)
  {
    if comment == [] {
      assert PackEnd(vs) + comment == PackEnd(vs);
      SearchPlain(before, vs);
    } else if MagicOnlyFirst(PackEnd(vs) + comment) {
      SearchCommented(before, vs, comment);
    } else {
      var i :| 1 <= i < |PackEnd(vs) + comment| && MagicAt(PackEnd(vs) + comment, i);
      SearchMisled(before, vs, comment, i);
    }
  }

  // The records that a writer puts at the end, and how they are found again.

  /** When _write_end_record adds the ZIP64 records. */
  predicate NeedsZip64(count: nat, size: nat, offset: nat) {
    count > ZIP_FILECOUNT_LIMIT || offset > ZIP64_LIMIT || size > ZIP64_LIMIT
  }

  function EndValues(count: nat, size: nat, offset: nat, comment: seq<byte>): (vs: seq<nat>)
    ensures |vs| == |END|
  {
    var c := if NeedsZip64(count, size, offset) then Min(count, 0xFFFF) else count;
    [END_SIGNATURE, 0, 0, c, c, if NeedsZip64(count, size, offset) then Min(size, MAX32) else size,
     if NeedsZip64(count, size, offset) then Min(offset, MAX32) else offset, |comment|]
  }

  function End64Values(count: nat, size: nat, offset: nat): (vs: seq<nat>)
    ensures |vs| == |END64|
  {
    [END64_SIGNATURE, 44, 45, 45, 0, 0, count, count, size, offset]
  }

  function Locator64Values(at: nat): (vs: seq<nat>)
    ensures |vs| == |LOCATOR64|
  {
    [LOCATOR64_SIGNATURE, 0, at, 1]
  }

  function Zip64Records(count: nat, size: nat, offset: nat): (s: seq<byte>)
    ensures |s| == if NeedsZip64(count, size, offset) then 76 else 0
  {
    if NeedsZip64(count, size, offset)
    then PackEnd64(End64Values(count, size, offset)) + PackLocator64(Locator64Values(offset + size))
    else []
  }

  function LastRecord(count: nat, size: nat, offset: nat, comment: seq<byte>): seq<byte> {
    PackEnd(EndValues(count, size, offset, comment)) + comment
  }

  function EndRecords(count: nat, size: nat, offset: nat, comment: seq<byte>): seq<byte> {
    Zip64Records(count, size, offset) + LastRecord(count, size, offset, comment)
  }

  /** Everything that _write_end_record packs fits its field. */
  predicate EndFits(count: nat, size: nat, offset: nat, comment: seq<byte>) {
    count <= MAX64 && offset + size <= MAX64 && |comment| <= ZIP_MAX_COMMENT
  }

  lemma EndValuesFit(count: nat, size: nat, offset: nat, comment: seq<byte>)
    requires EndFits(count, size, offset, comment)
    ensures ValidEnd(EndValues(count, size, offset, comment), comment)
    ensures Fits(END64, End64Values(count, size, offset))
    ensures Fits(LOCATOR64, Locator64Values(offset + size))
  {
    Powers();
  }

  /** The end record as a reader should see it, when `before` comes before the records. */
  function Expected(before: seq<byte>, count: nat, size: nat, offset: nat, comment: seq<byte>): EndRecord {
    var z := NeedsZip64(count, size, offset);
    EndRecord(z, 0, 0, count, count, size, offset, |comment|, comment, |before| + if z then 76 else 0)
  }

  /** The bytes before an end record at `loc` are taken for ZIP64 records, or for broken ones. */
  predicate Misleads(file: seq<byte>, loc: nat)
    requires loc <= |file|
  {
    && loc >= 20
    && var lv := UnpackLocator64(file[loc - 20..loc]);
       && lv[0] == LOCATOR64_SIGNATURE
       && (lv[1] != 0 || lv[3] > 1 || loc < 76 || UnpackEnd64(file[loc - 76..loc - 20])[0] == END64_SIGNATURE)
  }

  lemma WidenKeeps(file: seq<byte>, e: EndRecord)
    requires e.location <= |file| && !e.zip64
    ensures Widen(file, e) == Ok(e) <==> !Misleads(file, e.location)
  {
  }

  /** The caller's part: what the comment, and what the bytes before the records may not look like. */
  ghost predicate Findable(before: seq<byte>, count: nat, size: nat, offset: nat, comment: seq<byte>) {
    && (comment == [] || MagicOnlyFirst(LastRecord(count, size, offset, comment)))
    && (NeedsZip64(count, size, offset) || !Misleads(before + EndRecords(count, size, offset, comment), |before|))
  }

  lemma Zip64Slices(before: seq<byte>, r: seq<byte>, l: seq<byte>, last: seq<byte>)
    requires |r| == 56 && |l| == 20
    ensures var file := before + (r + l) + last;
            file[|before|..|before| + 56] == r && file[|before| + 56..|before| + 76] == l
  {
  }

  /** ZIP64 records that were written give the directory's numbers back, whatever their size. */
  lemma WidenWritten(before: seq<byte>, count: nat, size: nat, offset: nat, comment: seq<byte>)
    requires EndFits(count, size, offset, comment) && NeedsZip64(count, size, offset)
    ensures var file := before + Zip64Records(count, size, offset) + LastRecord(count, size, offset, comment);
            Widen(file, FromEnd(EndValues(count, size, offset, comment), comment, |before| + 76))
            == Ok(Expected(before, count, size, offset, comment))
  {
    EndValuesFit(count, size, offset, comment);
    var r, l := End64Values(count, size, offset), Locator64Values(offset + size);
    Zip64Slices(before, PackEnd64(r), PackLocator64(l), LastRecord(count, size, offset, comment));
    UnpackEnd64Of(r);
    UnpackLocator64Of(l);
  }

  /**
   The end records of an archive are found, with all their numbers and whatever comes before them, if and
   only if the comment does not repeat the magic number and no ZIP64 records are seen that are not there.
   */
  lemma FindWritten(before: seq<byte>, count: nat, size: nat, offset: nat, comment: seq<byte>)
    requires EndFits(count, size, offset, comment)
    ensures FindEnd(before + EndRecords(count, size, offset, comment)) ==
            Ok(Expected(before, count, size, offset, comment))
       <==> Findable(before, count, size, offset, comment)
  {
    var vs := EndValues(count, size, offset, comment);
    var front := before + Zip64Records(count, size, offset);
    var file := before + EndRecords(count, size, offset, comment);
    EndValuesFit(count, size, offset, comment);
    assert file == front + LastRecord(count, size, offset, comment);
    SearchFindsRecord(front, vs, comment);
    var found := FromEnd(vs, comment, |front|);
    if Search(file) == Some(found) {
      if NeedsZip64(count, size, offset) {
        WidenWritten(before, count, size, offset, comment);
      } else {
        assert front == before;
        WidenKeeps(file, found);
      }
    } else {
      NotFound(front, vs, comment);
    }
  }

  lemma NotFound(front: seq<byte>, vs: seq<nat>, comment: seq<byte>)
    requires ValidEnd(vs, comment) && 0 < |comment| <= ZIP_MAX_COMMENT && !MagicOnlyFirst(PackEnd(vs) + comment)
    ensures var r := FindEnd(front + (PackEnd(vs) + comment)); r.Ok? ==> r.value.location != |front|
  {
    var i :| 1 <= i < |PackEnd(vs) + comment| && MagicAt(PackEnd(vs) + comment, i);
    SearchMisled(front, vs, comment, i);
  }
}
