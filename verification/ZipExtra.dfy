/** Extra fields and the ZIP64 escape of sizes and offsets (section 4.5.3 of the ZIP application note). */
module ZipExtra {
  import opened Bits
  import opened Wrappers
  import opened ZipStruct

  const ZIP64_ID := 1

  datatype Error = CorruptExtra | CorruptZip64

  function FieldId(extra: seq<byte>): nat
    requires |extra| >= 4
  {
    UnpackInt(extra[..2])
  }

  /** Length of the first field with its four-byte head. */
  function FieldLength(extra: seq<byte>): (n: nat)
    requires |extra| >= 4
    ensures n >= 4
  {
    4 + UnpackInt(extra[2..4])
  }

  /** Whole fields, then at most three bytes that belong to none. */
  predicate WellFormed(extra: seq<byte>)
    decreases |extra|
  {
    |extra| < 4 || (FieldLength(extra) <= |extra| && WellFormed(extra[FieldLength(extra)..]))
  }

  /** Whole fields only. */
  predicate WholeFields(extra: seq<byte>)
    decreases |extra|
  {
    extra == [] || (|extra| >= 4 && FieldLength(extra) <= |extra| && WholeFields(extra[FieldLength(extra)..]))
  }

  predicate NoZip64(extra: seq<byte>)
    decreases |extra|
  {
    |extra| < 4 || (FieldId(extra) != ZIP64_ID
      && (FieldLength(extra) <= |extra| ==> NoZip64(extra[FieldLength(extra)..])))
  }

  lemma FirstField(a: seq<byte>, b: seq<byte>)
    requires |a| >= 4
    ensures FieldId(a + b) == FieldId(a) && FieldLength(a + b) == FieldLength(a)
    ensures FieldLength(a) <= |a| ==> (a + b)[FieldLength(a)..] == a[FieldLength(a)..] + b
  {
    assert (a + b)[..2] == a[..2] && (a + b)[2..4] == a[2..4];
  }

  lemma {:induction false} FieldsConcat(a: seq<byte>, b: seq<byte>)
    requires WholeFields(a)
    ensures WellFormed(b) ==> WellFormed(a + b)
    ensures WholeFields(b) ==> WholeFields(a + b)
    ensures NoZip64(a) && NoZip64(b) ==> NoZip64(a + b)
    decreases |a|
  {
    if a == [] {
      assert a + b == b;
    } else {
      FirstField(a, b);
      FieldsConcat(a[FieldLength(a)..], b);
    }
  }

  lemma {:induction false} WholeIsWellFormed(a: seq<byte>)
    requires WholeFields(a)
    ensures WellFormed(a)
    decreases |a|
  {
    if a == [] {
    } else {
      WholeIsWellFormed(a[FieldLength(a)..]);
    }
  }

  /**
   The loop of _strip_extra at position i: the fields from `start` on are not in the buffer yet. What
   comes after the last field taken out is dropped.
   */
  function StripFrom(extra: seq<byte>, start: nat, i: nat, modified: bool, buffer: seq<byte>): seq<byte>
    requires start <= i
    decreases |extra| - i
  {
    if i + 4 > |extra| then if modified then buffer else extra
    else
      var j := i + FieldLength(extra[i..]);
      if FieldId(extra[i..]) == ZIP64_ID then StripFrom(extra, j, j, true, buffer + extra[start..i])
      else StripFrom(extra, start, j, modified, buffer)
  }

  function Strip(extra: seq<byte>): seq<byte> {
    StripFrom(extra, 0, 0, false, [])
  }

  method StripExtra(extra: seq<byte>) returns (r: seq<byte>)
    ensures r == Strip(extra) && NoZip64(r)
    ensures r + AfterLast(extra) == Others(extra)
  {
    StripLoses(extra);
    StripClean(extra);
    var modified, buffer: seq<byte>, start: nat, i: nat := false, [], 0, 0;
    while i + 4 <= |extra|
      invariant start <= i
      invariant Strip(extra) == StripFrom(extra, start, i, modified, buffer)
      decreases |extra| - i
    {
      var xid, xlen := UnpackInt(extra[i..i + 2]), UnpackInt(extra[i + 2..i + 4]);
      assert extra[i..][..2] == extra[i..i + 2] && extra[i..][2..4] == extra[i + 2..i + 4];
      var j := i + 4 + xlen;
      if xid == ZIP64_ID {
        if i != start {
          buffer := buffer + extra[start..i];
        } else {
          assert buffer + extra[start..i] == buffer;
        }
        start := j;
        modified := true;
      }
      i := j;
    }
    return if modified then buffer else extra;
  }

  /** Stripping leaves no ZIP64 field, and a well-formed field list stays one. */
  lemma {:induction false} StripFromClean(extra: seq<byte>, start: nat, i: nat, modified: bool, buffer: seq<byte>)
    requires start <= i <= |extra|
    requires WholeFields(buffer) && NoZip64(buffer)
    requires WholeFields(extra[start..i]) && NoZip64(extra[start..i])
    requires !modified ==> start == 0
    ensures WellFormed(extra[i..]) ==> WellFormed(StripFrom(extra, start, i, modified, buffer))
    ensures NoZip64(StripFrom(extra, start, i, modified, buffer))
    decreases |extra| - i
  {
    if i + 4 > |extra| {
      StripEnds(extra, i, modified, buffer);
    } else {
      var n := FieldLength(extra[i..]);
      FieldsConcat(buffer, extra[start..i]);
      if i + n > |extra| {
        StripEnds(extra, i, modified, buffer);
      } else if FieldId(extra[i..]) == ZIP64_ID {
        assert extra[i..][n..] == extra[i + n..];
        assert extra[i + n..i + n] == [];
        StripFromClean(extra, i + n, i + n, true, buffer + extra[start..i]);
      } else {
        assert extra[i..][n..] == extra[i + n..];
        KeepField(extra, start, i, i + n);
        StripFromClean(extra, start, i + n, modified, buffer);
      }
    }
  }

  /** What the loop ends with when the bytes left are no whole field, or the last one is not taken out. */
  lemma {:induction false} StripEnds(extra: seq<byte>, i: nat, modified: bool, buffer: seq<byte>)
    requires i <= |extra| && WholeFields(buffer) && NoZip64(buffer)
    requires !modified ==> WholeFields(extra[0..i]) && NoZip64(extra[0..i])
    ensures WellFormed(buffer)
    ensures !modified && WellFormed(extra[i..]) ==> WellFormed(extra)
    ensures !modified && NoZip64(extra[i..]) ==> NoZip64(extra)
  {
    WholeIsWellFormed(buffer);
    if !modified {
      FieldsConcat(extra[0..i], extra[i..]);
      assert extra == extra[0..i] + extra[i..];
    }
  }

  lemma KeepField(extra: seq<byte>, start: nat, i: nat, j: nat)
    requires start <= i && i + 4 <= j <= |extra| && j == i + FieldLength(extra[i..])
    requires FieldId(extra[i..]) != ZIP64_ID
    requires WholeFields(extra[start..i]) && NoZip64(extra[start..i])
    ensures WholeFields(extra[start..j]) && NoZip64(extra[start..j])
  {
    assert extra[i..][..j - i] == extra[i..j];
    OneField(extra[i..j], extra[i..]);
    FieldsConcat(extra[start..i], extra[i..j]);
    assert extra[start..j] == extra[start..i] + extra[i..j];
  }

  lemma {:induction false} OneField(f: seq<byte>, all: seq<byte>)
    requires |all| >= 4 && FieldLength(all) <= |all| && f == all[..FieldLength(all)] && FieldId(all) != ZIP64_ID
    ensures WholeFields(f) && NoZip64(f)
  {
    assert f[..2] == all[..2] && f[2..4] == all[2..4];
    assert f[FieldLength(f)..] == [];
  }

  lemma {:induction false} StripClean(extra: seq<byte>)
    ensures NoZip64(Strip(extra))
    ensures WellFormed(extra) ==> WellFormed(Strip(extra))
  {
    assert extra[0..] == extra && extra[0..0] == [];
    StripFromClean(extra, 0, 0, false, []);
  }

  // What stripping keeps and what it loses, for any bytes at all.

  /** Where the first field ends: the last one may be cut short. */
  function FieldEnd(extra: seq<byte>): (n: nat)
    requires |extra| >= 4
    ensures 4 <= n <= |extra|
  {
    if FieldLength(extra) <= |extra| then FieldLength(extra) else |extra|
  }

  /** Everything but the ZIP64 fields, in order. */
  function Others(extra: seq<byte>): seq<byte>
    decreases |extra|
  {
    if |extra| < 4 then extra
    else
      var rest := Others(extra[FieldEnd(extra)..]);
      if FieldId(extra) == ZIP64_ID then rest else extra[..FieldEnd(extra)] + rest
  }

  /** What follows the last ZIP64 field, if there is one. */
  function AfterLast(extra: seq<byte>): seq<byte>
    decreases |extra|
  {
    if |extra| < 4 then []
    else
      var rest := extra[FieldEnd(extra)..];
      if NoZip64(rest) && FieldId(extra) == ZIP64_ID then rest else AfterLast(rest)
  }

  lemma {:induction false} NothingToStrip(extra: seq<byte>)
    requires NoZip64(extra)
    ensures Others(extra) == extra && AfterLast(extra) == []
    decreases |extra|
  {
    if |extra| < 4 {
    } else {
      assert extra[|extra|..] == [];
      NothingToStrip(extra[FieldEnd(extra)..]);
    }
  }

  /** Whether there is a ZIP64 field depends on the first one and on what follows it. */
  lemma {:induction false} NoZip64Step(extra: seq<byte>)
    requires |extra| >= 4
    ensures NoZip64(extra) <==> FieldId(extra) != ZIP64_ID && NoZip64(extra[FieldEnd(extra)..])
  {
    assert extra[|extra|..] == [];
  }

  /** The loop from position i on, after a field that ends at j. */
  lemma {:induction false} StripFromStep(
      extra: seq<byte>, start: nat, i: nat, j: nat, modified: bool, buffer: seq<byte>)
    requires start <= i && i + 4 <= |extra| && j == i + FieldEnd(extra[i..])
    ensures StripFrom(extra, start, i, modified, buffer) ==
            if FieldId(extra[i..]) == ZIP64_ID then StripFrom(extra, j, j, true, buffer + extra[start..i])
            else StripFrom(extra, start, j, modified, buffer)
  {
  }

  /** What the loop comes to that has kept some bytes, when it still has the tail to go through. */
  predicate Loses(r: seq<byte>, tail: seq<byte>, kept: seq<byte>, whole: seq<byte>) {
    if NoZip64(tail) then r == whole else r + AfterLast(tail) == kept + Others(tail)
  }

  lemma LosesZip64(r: seq<byte>, tail: seq<byte>, rest: seq<byte>, kept: seq<byte>, whole: seq<byte>)
    requires |tail| >= 4 && rest == tail[FieldEnd(tail)..] && FieldId(tail) == ZIP64_ID
    requires Loses(r, rest, kept, kept)
    ensures Loses(r, tail, kept, whole)
  {
    NoZip64Step(tail);
    if NoZip64(rest) {
      NothingToStrip(rest);
    }
  }

  lemma LosesOther(r: seq<byte>, tail: seq<byte>, rest: seq<byte>, kept: seq<byte>, whole: seq<byte>)
    requires |tail| >= 4 && rest == tail[FieldEnd(tail)..] && FieldId(tail) != ZIP64_ID
    requires Loses(r, rest, kept + tail[..FieldEnd(tail)], whole)
    ensures Loses(r, tail, kept, whole)
  {
    NoZip64Step(tail);
    if !NoZip64(rest) {
      assert kept + tail[..FieldEnd(tail)] + Others(rest) == kept + (tail[..FieldEnd(tail)] + Others(rest));
    }
  }

  lemma KeepMore(buffer: seq<byte>, extra: seq<byte>, start: nat, i: nat, j: nat)
    requires start <= i <= j <= |extra|
    ensures buffer + extra[start..j] == buffer + extra[start..i] + extra[i..][..j - i]
  {
    assert extra[start..j] == extra[start..i] + extra[i..][..j - i];
  }

  lemma {:induction false} LosesEnd(extra: seq<byte>, start: nat, i: nat, modified: bool, buffer: seq<byte>)
    requires start <= i <= |extra| < i + 4
    ensures Loses(StripFrom(extra, start, i, modified, buffer), extra[i..], buffer + extra[start..i],
                  if modified then buffer else extra)
  {
  }

  lemma {:induction false} StripFromLoses(extra: seq<byte>, start: nat, i: nat, modified: bool, buffer: seq<byte>)
    requires start <= i <= |extra|
    ensures Loses(StripFrom(extra, start, i, modified, buffer), extra[i..], buffer + extra[start..i],
                  if modified then buffer else extra)
    decreases |extra| - i
  {
    if i + 4 > |extra| {
      LosesEnd(extra, start, i, modified, buffer);
    } else {
      var j := i + FieldEnd(extra[i..]);
      assert extra[i..][j - i..] == extra[j..];
      StripFromStep(extra, start, i, j, modified, buffer);
      if FieldId(extra[i..]) == ZIP64_ID {
        StripFromLoses(extra, j, j, true, buffer + extra[start..i]);
        LosesTaken(extra, i, j, StripFrom(extra, j, j, true, buffer + extra[start..i]), buffer + extra[start..i],
                   if modified then buffer else extra);
      } else {
        StripFromLoses(extra, start, j, modified, buffer);
        KeepMore(buffer, extra, start, i, j);
        LosesOther(StripFrom(extra, start, j, modified, buffer), extra[i..], extra[j..], buffer + extra[start..i],
                   if modified then buffer else extra);
      }
    }
  }

  /** A field that is taken out: the loop goes on with what was kept so far. */
  lemma LosesTaken(extra: seq<byte>, i: nat, j: nat, r: seq<byte>, kept: seq<byte>, whole: seq<byte>)
    requires i + 4 <= j <= |extra| && j == i + FieldEnd(extra[i..]) && FieldId(extra[i..]) == ZIP64_ID
    requires Loses(r, extra[j..], kept + extra[j..j], kept)
    ensures Loses(r, extra[i..], kept, whole)
  {
    assert kept + extra[j..j] == kept && extra[i..][j - i..] == extra[j..];
    LosesZip64(r, extra[i..], extra[j..], kept, whole);
  }

  /** Stripping gives the other fields without those that follow the last field taken out. */
  lemma {:induction false} StripLoses(extra: seq<byte>)
    ensures Strip(extra) + AfterLast(extra) == Others(extra)
    ensures NoZip64(extra) ==> Strip(extra) == extra
  {
    assert extra[0..] == extra && extra[0..0] == [];
    StripFromLoses(extra, 0, 0, false, []);
    if NoZip64(extra) {
      NothingToStrip(extra);
    }
  }

  /** All other fields are kept if and only if nothing follows the last ZIP64 field. */
  lemma {:induction false} StripKeepsOthers(extra: seq<byte>)
    ensures Strip(extra) == Others(extra) <==> AfterLast(extra) == []
  {
    StripLoses(extra);
    assert |Strip(extra)| + |AfterLast(extra)| == |Others(extra)|;
  }

  // The escape.

  datatype Numbers = Numbers(fileSize: nat, compressSize: nat, headerOffset: nat)

  function Pack64(vs: seq<nat>): (s: seq<byte>)
    ensures |s| == 8 * |vs|
  {
    if vs == [] then [] else PackInt(vs[0], 8) + Pack64(vs[1..])
  }

  /** What goes into the ZIP64 field: both sizes if one is too large, then the offset if it is. */
  function Escaped(n: Numbers): (vs: seq<nat>)
    ensures |vs| <= 3
  {
    (if n.fileSize > ZIP64_LIMIT || n.compressSize > ZIP64_LIMIT then [n.fileSize, n.compressSize] else []) +
    (if n.headerOffset > ZIP64_LIMIT then [n.headerOffset] else [])
  }

  /** What goes into the 32-bit fields of the central directory. */
  function Narrow(n: Numbers): Numbers {
    var large := n.fileSize > ZIP64_LIMIT || n.compressSize > ZIP64_LIMIT;
    Numbers(if large then MAX32 else n.fileSize,
            if large then MAX32 else n.compressSize,
            if n.headerOffset > ZIP64_LIMIT then MAX32 else n.headerOffset)
  }

  function Zip64Field(vs: seq<nat>): (s: seq<byte>)
    ensures |s| == 4 + 8 * |vs|
  {
    PackInt(ZIP64_ID, 2) + PackInt(8 * |vs|, 2) + Pack64(vs)
  }

  /** The extra data of an entry as the central directory gets it. */
  function CentralExtra(extra: seq<byte>, n: Numbers): seq<byte> {
    if Escaped(n) == [] then extra else Zip64Field(Escaped(n)) + Strip(extra)
  }

  /** The values a ZIP64 field replaces, each taken from the front of the field's data. */
  function ReadZip64(n: Numbers, data: seq<byte>): Result<Numbers, Error> {
    var wantFile := n.fileSize == MAX64 || n.fileSize == MAX32;
    if wantFile && |data| < 8 then Err(CorruptZip64)
    else
      var n1 := if wantFile then n.(fileSize := UnpackInt(data[..8])) else n;
      var data1 := if wantFile then data[8..] else data;
      var wantCompress := n.compressSize == MAX32;
      if wantCompress && |data1| < 8 then Err(CorruptZip64)
      else
        var n2 := if wantCompress then n1.(compressSize := UnpackInt(data1[..8])) else n1;
        var data2 := if wantCompress then data1[8..] else data1;
        if n.headerOffset != MAX32 then Ok(n2)
        else if |data2| < 8 then Err(CorruptZip64)
        else Ok(n2.(headerOffset := UnpackInt(data2[..8])))
  }

  /** _decodeExtra. */
  function DecodeExtra(n: Numbers, extra: seq<byte>): Result<Numbers, Error>
    decreases |extra|
  {
    if |extra| < 4 then Ok(n)
    else if FieldLength(extra) > |extra| then Err(CorruptExtra)
    else
      var rest := extra[FieldLength(extra)..];
      if FieldId(extra) != ZIP64_ID then DecodeExtra(n, rest)
      else
        match ReadZip64(n, extra[4..FieldLength(extra)])
        case Err(e) => Err(e)
        case Ok(n') => DecodeExtra(n', rest)
  }

  method DecodeExtraLoop(numbers: Numbers, field: seq<byte>) returns (r: Result<Numbers, Error>)
    ensures r == DecodeExtra(numbers, field)
  {
    var n, extra := numbers, field;
    while |extra| >= 4
      invariant DecodeExtra(numbers, field) == DecodeExtra(n, extra)
      decreases |extra|
    {
      var tp, ln := UnpackInt(extra[..2]), UnpackInt(extra[2..4]);
      if ln + 4 > |extra| {
        return Err(CorruptExtra);
      }
      if tp == ZIP64_ID {
        var data := extra[4..ln + 4];
        var wide := n;
        if wide.fileSize == MAX64 || wide.fileSize == MAX32 {
          if |data| < 8 {
            return Err(CorruptZip64);
          }
          n := n.(fileSize := UnpackInt(data[..8]));
          data := data[8..];
        }
        if wide.compressSize == MAX32 {
          if |data| < 8 {
            return Err(CorruptZip64);
          }
          n := n.(compressSize := UnpackInt(data[..8]));
          data := data[8..];
        }
        if wide.headerOffset == MAX32 {
          if |data| < 8 {
            return Err(CorruptZip64);
          }
          n := n.(headerOffset := UnpackInt(data[..8]));
        }
      }
      extra := extra[ln + 4..];
    }
    return Ok(n);
  }

  predicate Escapes(n: Numbers) {
    n.fileSize == MAX64 || n.fileSize == MAX32 || n.compressSize == MAX32 || n.headerOffset == MAX32
  }

  /** Without an escape the extra data changes nothing. */
  lemma {:induction false} DecodeUnescaped(n: Numbers, extra: seq<byte>)
    requires WellFormed(extra) && (NoZip64(extra) || !Escapes(n))
    ensures DecodeExtra(n, extra) == Ok(n)
    decreases |extra|
  {
    if |extra| >= 4 {
      DecodeUnescaped(n, extra[FieldLength(extra)..]);
    }
  }

  /** Without an escape nothing is read from the extra data; but it has to be made of whole fields. */
  lemma {:induction false} DecodePlain(n: Numbers, extra: seq<byte>)
    requires NoZip64(extra) || !Escapes(n)
    ensures DecodeExtra(n, extra) == if WellFormed(extra) then Ok(n) else Err(CorruptExtra)
    decreases |extra|
  {
    if |extra| >= 4 && FieldLength(extra) <= |extra| {
      DecodePlain(n, extra[FieldLength(extra)..]);
    }
  }

  /** How many numbers a ZIP64 field has to hold for these: one for each that is escaped. */
  function Missing(n: Numbers): nat {
    (if n.fileSize == MAX64 || n.fileSize == MAX32 then 1 else 0) + (if n.compressSize == MAX32 then 1 else 0)
    + (if n.headerOffset == MAX32 then 1 else 0)
  }

  /** The i-th 64-bit number of a field. */
  function NumberAt(data: seq<byte>, i: nat): nat
    requires 8 * i + 8 <= |data|
  {
    UnpackInt(data[8 * i..8 * i + 8])
  }

  /**
   A ZIP64 field is too short exactly when it holds less than what is missing. Otherwise file size,
   compressed size and offset, as far as they are escaped, are its first numbers, in this order.
   */
  lemma ReadsExactly(n: Numbers, data: seq<byte>)
    ensures ReadZip64(n, data) == Err(CorruptZip64) <==> |data| < 8 * Missing(n)
    ensures |data| >= 8 * Missing(n) ==>
              var a := if n.fileSize == MAX64 || n.fileSize == MAX32 then 1 else 0;
              var b := if n.compressSize == MAX32 then 1 else 0;
              ReadZip64(n, data) == Ok(Numbers(
                if a == 1 then NumberAt(data, 0) else n.fileSize,
                if b == 1 then NumberAt(data, a) else n.compressSize,
                if n.headerOffset == MAX32 then NumberAt(data, a + b) else n.headerOffset))
  {
    if |data| >= 8 {
      assert data[8..][..0] == [];
      if |data| >= 16 {
        assert data[8..][..8] == data[8..16];
        if |data| >= 24 {
          assert data[8..][8..][..8] == data[16..24];
        }
      }
    }
  }

  /** The fields before a ZIP64 field are passed over, and the ones after it are gone through with its numbers. */
  lemma {:induction false} DecodeBehind(n: Numbers, before: seq<byte>, rest: seq<byte>)
    requires WholeFields(before) && NoZip64(before)
    ensures DecodeExtra(n, before + rest) == DecodeExtra(n, rest)
    decreases |before|
  {
    if before == [] {
      assert before + rest == rest;
    } else {
      FirstField(before, rest);
      DecodeBehind(n, before[FieldLength(before)..], rest);
    }
  }

  lemma {:induction false} FieldHead(vs: seq<nat>, rest: seq<byte>)
    requires |vs| <= 3
    ensures var extra := Zip64Field(vs) + rest;
            && FieldId(extra) == ZIP64_ID && FieldLength(extra) == 4 + 8 * |vs|
            && extra[4..4 + 8 * |vs|] == Pack64(vs) && extra[4 + 8 * |vs|..] == rest
  {
    Powers();
    Slices(PackInt(ZIP64_ID, 2), PackInt(8 * |vs|, 2), Pack64(vs), rest);
    UnpackPackInt(ZIP64_ID, 2);
    UnpackPackInt(8 * |vs|, 2);
  }

  lemma Slices(a: seq<byte>, b: seq<byte>, c: seq<byte>, e: seq<byte>)
    requires |a| == 2 && |b| == 2
    ensures var all := a + b + c + e;
            all[..2] == a && all[2..4] == b && all[4..4 + |c|] == c && all[4 + |c|..] == e
  {
  }

  lemma {:induction false} Unpack64First(v: nat, vs: seq<nat>)
    requires v <= MAX64
    ensures |Pack64([v] + vs)| >= 8
    ensures UnpackInt(Pack64([v] + vs)[..8]) == v && Pack64([v] + vs)[8..] == Pack64(vs)
  {
    Powers();
    UnpackPackInt(v, 8);
    assert ([v] + vs)[1..] == vs;
  }

  /** Both sizes are read, then what is left is read for the offset. */
  lemma ReadSizes(n: Numbers, data: seq<byte>, rest: seq<byte>)
    requires n.fileSize > ZIP64_LIMIT || n.compressSize > ZIP64_LIMIT
    requires |data| >= 16 && UnpackInt(data[..8]) == n.fileSize
    requires UnpackInt(data[8..][..8]) == n.compressSize && data[8..][8..] == rest
    requires n.headerOffset > ZIP64_LIMIT ==> |rest| >= 8 && UnpackInt(rest[..8]) == n.headerOffset
    ensures ReadZip64(Narrow(n), data) == Ok(n)
  {
  }

  lemma ReadOffset(n: Numbers, data: seq<byte>)
    requires n.fileSize <= ZIP64_LIMIT && n.compressSize <= ZIP64_LIMIT
    requires n.headerOffset > ZIP64_LIMIT ==> |data| >= 8 && UnpackInt(data[..8]) == n.headerOffset
    ensures ReadZip64(Narrow(n), data) == Ok(n)
  {
  }

  lemma ReadEscaped(n: Numbers)
    requires n.fileSize <= MAX64 && n.compressSize <= MAX64 && n.headerOffset <= MAX64
    ensures ReadZip64(Narrow(n), Pack64(Escaped(n))) == Ok(n)
  {
    var offsets := if n.headerOffset > ZIP64_LIMIT then [n.headerOffset] else [];
    OffsetFirst(n.headerOffset);
    if n.fileSize > ZIP64_LIMIT || n.compressSize > ZIP64_LIMIT {
      assert Escaped(n) == [n.fileSize] + ([n.compressSize] + offsets);
      Unpack64First(n.fileSize, [n.compressSize] + offsets);
      Unpack64First(n.compressSize, offsets);
      ReadSizes(n, Pack64(Escaped(n)), Pack64(offsets));
    } else {
      assert Escaped(n) == offsets;
      ReadOffset(n, Pack64(offsets));
    }
  }

  lemma OffsetFirst(offset: nat)
    requires offset <= MAX64
    ensures |Pack64([offset])| >= 8 && UnpackInt(Pack64([offset])[..8]) == offset
  {
    Unpack64First(offset, []);
    assert [offset] + [] == [offset];
  }

  /**
   Sizes and offsets below 2^64 survive the central directory, whatever well-formed extra field the entry
   has: the escape value is never a real 32-bit value, and the values are read in the order written.
   */
  lemma {:induction false} NumbersRoundTrip(n: Numbers, extra: seq<byte>)
    requires n.fileSize <= MAX64 && n.compressSize <= MAX64 && n.headerOffset <= MAX64
    requires WellFormed(extra)
    ensures DecodeExtra(Narrow(n), CentralExtra(extra, n)) == Ok(n)
  {
    if Escaped(n) == [] {
      DecodeUnescaped(n, extra);
    } else {
      StripClean(extra);
      FieldHead(Escaped(n), Strip(extra));
      ReadEscaped(n);
      DecodeUnescaped(n, Strip(extra));
    }
  }

  // The other fields, in the directory.

  lemma {:induction false} OthersAfterZip64(vs: seq<nat>, rest: seq<byte>)
    requires |vs| <= 3
    ensures Others(Zip64Field(vs) + rest) == Others(rest)
  {
    FieldHead(vs, rest);
  }

  /**
   The directory entry keeps all other fields if and only if it needs no ZIP64 field of its own, or nothing
   follows the last ZIP64 field that the entry had before.
   */
  lemma {:induction false} CentralKeepsOthers(extra: seq<byte>, n: Numbers)
    ensures Others(CentralExtra(extra, n)) == Others(extra) <==> Escaped(n) == [] || AfterLast(extra) == []
  {
    if Escaped(n) != [] {
      OthersAfterZip64(Escaped(n), Strip(extra));
      StripClean(extra);
      NothingToStrip(Strip(extra));
      StripKeepsOthers(extra);
    }
  }

  /** An empty ZIP64 field, and an empty one with number 2. */
  const TWO_FIELDS: seq<byte> := [1, 0, 0, 0, 2, 0, 0, 0]

  lemma TwoFields()
    ensures FieldId(TWO_FIELDS) == ZIP64_ID && FieldEnd(TWO_FIELDS) == 4 && WellFormed(TWO_FIELDS)
    ensures FieldId(TWO_FIELDS[4..]) == 2 && FieldEnd(TWO_FIELDS[4..]) == 4 && NoZip64(TWO_FIELDS[4..])
  {
    assert TWO_FIELDS[..2] == [1, 0] && TWO_FIELDS[2..4] == [0, 0];
    assert TWO_FIELDS[4..][..2] == [2, 0] && TWO_FIELDS[4..][2..4] == [0, 0];
    SmallNumber(1);
    SmallNumber(2);
    SmallNumber(0);
    assert TWO_FIELDS[4..][4..] == [];
  }

  lemma SmallNumber(b: byte)
    ensures UnpackInt([b, 0]) == b
  {
    assert [b, 0][1..] == [0] && [0][1..] == [];
  }

  /** One such input: its second field is lost when a size or the offset is large. */
  lemma FieldIsLost(n: Numbers)
    requires Escaped(n) != []
    ensures WellFormed(TWO_FIELDS) && Others(TWO_FIELDS) == [2, 0, 0, 0] && Strip(TWO_FIELDS) == []
    ensures Others(CentralExtra(TWO_FIELDS, n)) == []
  {
    TwoFields();
    NothingToStrip(TWO_FIELDS[4..]);
    StripLoses(TWO_FIELDS);
    assert |Strip(TWO_FIELDS)| == 0;
    OthersAfterZip64(Escaped(n), []);
  }
}
