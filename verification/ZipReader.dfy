/** Reading an archive: the reading half of ZipFile in bin/custom_zipfile.py. */
module ZipReader {
  import opened Bits
  import opened Wrappers
  import opened ZipRecords
  import ZipEnd
  import opened ZipArchive
  import ZipExtFile
  import ZipWriter

  class Reader {
    const file: seq<byte>
    const crc32: Crc32
    var comment: seq<byte>
    var startDir: int
    var filelist: seq<ZipInfo>
    var nameToInfo: map<seq<byte>, ZipInfo>

    constructor (file: seq<byte>, crc32: Crc32)
      ensures this.file == file && this.crc32 == crc32 && filelist == [] && nameToInfo == map[]
    {
      this.file, this.crc32, comment, startDir, filelist, nameToInfo := file, crc32, [], 0, [], map[];
    }

    function Held(): Listing
      requires startDir >= 0
      reads this
    {
      Listing(comment, startDir, filelist, nameToInfo)
    }

    /** _RealGetContents: mode 'r'. */
    method RealGetContents() returns (r: Result<(), ZipError>)
      requires filelist == [] && nameToInfo == map[]
      modifies this
      ensures r.Err? ==> Contents(file) == Err(r.error)
      ensures r.Ok? ==> startDir >= 0 && Contents(file) == Ok(Held())
    {
      var found := ZipEnd.FindEnd(file);
      if found.Err? {
        return Err(found.error);
      }
      var e := found.value;
      comment := e.comment;
      var concat := Concat(e);
      startDir := e.offset + concat;
      if startDir < 0 {
        return Err(ValueError);
      }
      r := ReadDirectory(Decoder(concat), Take(Drop(file, startDir), e.size), e.size);
    }

    /** The loop over the entries of the directory. */
    method ReadDirectory(decode: EntryDecoder, directory: seq<byte>, size: nat) returns (r: Result<(), ZipError>)
      requires filelist == [] && nameToInfo == map[]
      modifies this`filelist, this`nameToInfo
      ensures r.Err? ==> Entries(decode, directory, size) == Err(r.error)
      ensures r.Ok? ==> Entries(decode, directory, size) == Ok(filelist) && nameToInfo == ByName(filelist)
    {
      var data, total := directory, 0;
      StartsOver(Entries(decode, directory, size));
      while total < size
        invariant total >= 0 && nameToInfo == ByName(filelist)
        invariant Continues(Entries(decode, directory, size), filelist, Entries(decode, data, size - total))
        decreases size - total
      {
        var entry := decode(data);
        if entry.Err? {
          return Err(entry.error);
        }
        if entry.value.1 == 0 {
          return Err(BadZipFile);
        }
        GoesOn(Entries(decode, directory, size), filelist, decode, data, size - total);
        AddEntry(entry.value.0);
        data := Drop(data, entry.value.1);
        total := total + entry.value.1;
      }
      assert filelist + [] == filelist;
      return Ok(());
    }

    method AddEntry(x: ZipInfo)
      requires nameToInfo == ByName(filelist)
      modifies this`filelist, this`nameToInfo
      ensures filelist == old(filelist) + [x] && nameToInfo == ByName(filelist)
    {
      ZipWriter.ByNameAppend(filelist, x);
      filelist := filelist + [x];
      nameToInfo := nameToInfo[x.name := x];
    }

    method GetInfo(name: seq<byte>) returns (r: Result<ZipInfo, ZipError>)
      ensures r == if name in nameToInfo then Ok(nameToInfo[name]) else Err(KeyError)
    {
      if name !in nameToInfo {
        return Err(KeyError);
      }
      return Ok(nameToInfo[name]);
    }

    /** open(name), for a stored member and without a password. */
    method Open(name: seq<byte>) returns (r: Result<ZipExtFile.ExtFile, ZipError>)
      requires name in nameToInfo ==> nameToInfo[name].compressType == 0
      ensures name !in nameToInfo ==> r == Err(KeyError)
      ensures name in nameToInfo && r.Err? ==> OpenMember(file, nameToInfo[name]) == Err(r.error)
      ensures name in nameToInfo && r.Ok? ==>
                && OpenMember(file, nameToInfo[name]) == Ok(r.value.start)
                && fresh(r.value) && r.value.Valid() && r.value.Position() == 0 && !r.value.eof
                && r.value.file == file && r.value.info == nameToInfo[name] && r.value.crc32 == crc32
                && r.value.content == Stored(file, r.value.start, nameToInfo[name])
    {
      var found := GetInfo(name);
      if found.Err? {
        return Err(found.error);
      }
      var z := found.value;
      var begin := OpenMember(file, z);
      if begin.Err? {
        return Err(begin.error);
      }
      var member := new ZipExtFile.ExtFile(file, begin.value, z, crc32);
      return Ok(member);
    }

    /** read(name): the data of the member, or the exception. */
    method Read(name: seq<byte>) returns (r: Result<seq<byte>, ZipError>)
      requires name in nameToInfo ==> nameToInfo[name].compressType == 0
      ensures r == if name in nameToInfo then ReadMember(file, nameToInfo[name], crc32) else Err(KeyError)
    {
      var member := Open(name);
      if member.Err? {
        return Err(member.error);
      }
      var m := member.value;
      m.FaultOfRead();
      r := m.Read(-1);
      if r.Ok? {
        ZipExtFile.PartIsSlice(m.content, 0, r.value);
        assert r.value == m.content;
      }
    }
  }

  /** A loop that has read `done` so far and goes on to read `rest` comes to `all`. */
  predicate Continues(
      all: Result<seq<ZipInfo>, ZipError>, done: seq<ZipInfo>, rest: Result<seq<ZipInfo>, ZipError>)
  {
    all == match rest case Err(e) => Err(e) case Ok(zs) => Ok(done + zs)
  }

  lemma StartsOver(all: Result<seq<ZipInfo>, ZipError>)
    ensures Continues(all, [], all)
  {
    if all.Ok? {
      assert [] + all.value == all.value;
    }
  }

  lemma GoesOn(
      all: Result<seq<ZipInfo>, ZipError>, done: seq<ZipInfo>, decode: EntryDecoder, data: seq<byte>, left: int)
    requires left > 0 && Continues(all, done, Entries(decode, data, left))
    requires decode(data).Ok? && decode(data).value.1 != 0
    ensures var (x, n) := decode(data).value;
            Continues(all, done + [x], Entries(decode, Drop(data, n), left - n))
  {
    var (x, n) := decode(data).value;
    var rest := Entries(decode, Drop(data, n), left - n);
    if rest.Ok? {
      assert done + ([x] + rest.value) == done + [x] + rest.value;
    }
  }
}
