/** When a stored member of any file can be opened and read, told from the bytes of the file. */
module ZipOpening {
  import opened Bits
  import opened Wrappers
  import opened ZipStruct
  import opened ZipRecords
  import opened ZipArchive
  import ZipLayout
  import ZipLocal

  /** The two lengths of a local header: of its name, and of its extra data. */
  function NameLength(file: seq<byte>, at: nat): nat
    requires at + 30 <= |file|
  {
    UnpackInt(file[at + 26..at + 28])
  }

  function ExtraLength(file: seq<byte>, at: nat): nat
    requires at + 30 <= |file|
  {
    UnpackInt(file[at + 28..at + 30])
  }

  /** A local header where the object says, with the object's name, and flags without encryption and patches. */
  predicate OpensAt(file: seq<byte>, z: ZipInfo, start: nat) {
    var at := z.headerOffset;
    && 0 <= at && at + 30 <= |file| && file[at..at + 4] == [0x50, 0x4B, 3, 4]
    && z.flagBits % 2 == 0 && z.flagBits / 0x20 % 2 == 0 && z.flagBits / 0x40 % 2 == 0
    && Take(file[at + 30..], NameLength(file, at)) == z.origName
    && start == Min(at + 30 + NameLength(file, at) + ExtraLength(file, at), |file|)
  }

  /** The bytes of the object's sizes from there on, all there, with the object's checksum. */
  predicate HoldsAt(file: seq<byte>, z: ZipInfo, crc32: Crc32, start: nat, data: seq<byte>) {
    var n := Min(z.compressSize, z.fileSize);
    && start + n <= |file| && (start < |file| || z.compressSize == 0)
    && data == file[start..start + n] && crc32(data, 0) == z.crc
  }

  lemma {:induction false} FieldIs(s: seq<byte>, i: nat, at: nat, n: nat)
    requires |s| == 30 && i < |LOCAL| && at == ZipLayout.Before(LOCAL, i) && n == LOCAL[i]
    ensures at + n <= 30 && UnpackLocal(s)[i] == UnpackInt(s[at..at + n])
  {
    Sizes();
    ZipLayout.FieldAt(LOCAL, s, i, at, n);
  }

  lemma HeaderFields(s: seq<byte>)
    requires |s| == 30
    ensures UnpackLocal(s)[0] == UnpackInt(s[0..4]) && UnpackLocal(s)[10] == UnpackInt(s[26..28])
    ensures UnpackLocal(s)[11] == UnpackInt(s[28..30])
  {
    ZipLayout.LocalStarts();
    FieldIs(s, 0, 0, 4);
    FieldIs(s, 10, 26, 2);
    FieldIs(s, 11, 28, 2);
  }

  lemma {:induction false} SignatureIs(s: seq<byte>)
    requires |s| == 4
    ensures UnpackInt(s) == LOCAL_SIGNATURE <==> s == [0x50, 0x4B, 3, 4]
  {
    ZipLocal.SignatureBytes();
    PackUnpackInt(s);
    Powers();
    UnpackPackInt(LOCAL_SIGNATURE, 4);
  }

  lemma SubSlice(file: seq<byte>, at: nat, i: nat, j: nat)
    requires at + 30 <= |file| && i <= j <= 30
    ensures file[at..at + 30][i..j] == file[at + i..at + j]
  {
    var s := file[at..at + 30];
    assert forall k :: i <= k < j ==> s[k] == file[at + k];
  }

  /** The fields that opening looks at, from the bytes of the header. */
  lemma LocalIs(file: seq<byte>, at: nat)
    requires at + 30 <= |file|
    ensures ReadLocal(file, at).Ok? <==> file[at..at + 4] == [0x50, 0x4B, 3, 4]
    ensures ReadLocal(file, at).Ok? ==>
              && ReadLocal(file, at).value[10] == NameLength(file, at)
              && ReadLocal(file, at).value[11] == ExtraLength(file, at)
  {
    var s := file[at..at + 30];
    HeaderFields(s);
    SubSlice(file, at, 0, 4);
    SubSlice(file, at, 26, 28);
    SubSlice(file, at, 28, 30);
    SignatureIs(s[0..4]);
  }

  /** A member is opened exactly when its header is there as the object has it. */
  lemma OpensExactly(file: seq<byte>, z: ZipInfo, start: nat)
    ensures OpenMember(file, z) == Ok(start) <==> OpensAt(file, z, start)
  {
    if z.headerOffset >= 0 && z.headerOffset + 30 <= |file| {
      LocalIs(file, z.headerOffset);
    }
  }

  lemma StoredExactly(file: seq<byte>, z: ZipInfo, crc32: Crc32, start: nat, data: seq<byte>)
    requires start <= |file|
    ensures ReadStored(file, start, z, crc32) == Ok(data) <==> HoldsAt(file, z, crc32, start, data)
  {
    var n := Min(z.compressSize, z.fileSize);
    if start + n <= |file| {
      assert Stored(file, start, z) == file[start..start + n];
    } else {
      assert |Stored(file, start, z)| < n;
    }
  }

  /** A member is read exactly when its header and its data are there, and its checksum is right. */
  lemma ReadExactly(file: seq<byte>, z: ZipInfo, crc32: Crc32, data: seq<byte>)
    ensures ReadMember(file, z, crc32) == Ok(data) <==>
            exists start: nat :: OpensAt(file, z, start) && HoldsAt(file, z, crc32, start, data)
  {
    var begun := OpenMember(file, z);
    if begun.Ok? {
      OpensExactly(file, z, begun.value);
      StoredExactly(file, z, crc32, begun.value, data);
    }
    if start: nat :| OpensAt(file, z, start) && HoldsAt(file, z, crc32, start, data) {
      OpensExactly(file, z, start);
      StoredExactly(file, z, crc32, start, data);
    }
  }
}
