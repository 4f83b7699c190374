/** Replacing the contents of a stream in place, and what reopening it and the other streams then gives. */
module OleWrite {
  import opened Bits
  import opened Wrappers
  import opened OleStream

  /** seek and write: a gap past the end of the file is filled with zero bytes. */
  function WriteAt(file: seq<byte>, pos: nat, data: seq<byte>): (r: seq<byte>)
    ensures |r| == if pos + |data| > |file| then pos + |data| else |file|
  {
    var f := if |file| < pos then file + ZeroBytes(pos - |file|) else file;
    f[..pos] + data + if pos + |data| < |f| then f[pos + |data|..] else []
  }

  lemma ReadBack(file: seq<byte>, pos: nat, data: seq<byte>)
    ensures ReadAt(WriteAt(file, pos, data), pos, |data|) == data
  {
  }

  /** Writing before a range never changes what is read from it. */
  lemma ReadAfter(file: seq<byte>, pos: nat, data: seq<byte>, q: nat, n: nat)
    requires pos + |data| <= q
    ensures ReadAt(WriteAt(file, pos, data), q, n) == ReadAt(file, q, n)
  {
    var w := WriteAt(file, pos, data);
    if q < |file| {
      assert |w| == |file|;
      assert forall i :: q <= i < |file| ==> w[i] == file[i];
    }
  }

  /** Writing after a range does not change it if it was there in full. */
  lemma ReadBefore(file: seq<byte>, pos: nat, data: seq<byte>, q: nat, n: nat)
    requires q + n <= pos && |ReadAt(file, q, n)| == n
    ensures ReadAt(WriteAt(file, pos, data), q, n) == ReadAt(file, q, n)
  {
    var w := WriteAt(file, pos, data);
    if n > 0 {
      assert q + n <= |file|;
      assert forall i :: 0 <= i < q + n ==> w[i] == file[i];
    }
  }

  function Pad(data: seq<byte>, n: nat): (r: seq<byte>)
    ensures |data| <= n ==> |r| == n
  {
    if |data| < n then data + ZeroBytes(n - |data|) else data
  }

  function PutSector(c: Container, s: nat, data: seq<byte>): Container {
    c.(file := WriteAt(c.file, c.offset + c.sectorSize * s, Pad(data, c.sectorSize)))
  }

  /** The new container, and the index after the last sector, or the IndexError. */
  function WriteFrom(c: Container, sect: u32, data: seq<byte>, n: nat): (r: (Container, Result<u32, Error>))
    ensures r.0 == c.(file := r.0.file)
    decreases n
  {
    if n == 0 then (c, Ok(sect))
    else
      var piece := if n > 1 && |data| >= c.sectorSize then data[..c.sectorSize] else data;
      var after := PutSector(c, sect, piece);
      if sect >= |c.fat| then (after, Err(IndexOutOfRange))
      else WriteFrom(after, c.fat[sect], data[|piece|..], n - 1)
  }

  /** write_stream past its checks. */
  function Write(c: Container, sect: u32, data: seq<byte>): (Container, Result<(), Error>)
    requires c.sectorSize > 0
  {
    var (after, r) := WriteFrom(c, sect, data, CeilDiv(|data|, c.sectorSize));
    (after, match r
            case Err(e) => Err(e)
            case Ok(last) => if last == END_OF_CHAIN then Ok(()) else Err(BadLastSector))
  }

  lemma SectorsApart(size: nat, s: nat, t: nat)
    requires s < t
    ensures size * s + size <= size * t
  {
    MulAtLeast(t - s, size);
    assert size * t == size * s + (t - s) * size;
  }

  lemma PutSectorGet(c: Container, s: nat, data: seq<byte>)
    requires |data| <= c.sectorSize
    ensures Sector(PutSector(c, s, data), s) == Pad(data, c.sectorSize)
  {
    ReadBack(c.file, c.offset + c.sectorSize * s, Pad(data, c.sectorSize));
  }

  lemma PutElsewhere(file: seq<byte>, p: nat, data: seq<byte>, q: nat, n: nat)
    requires |data| == n && (p + n <= q || (q + n <= p && |ReadAt(file, q, n)| == n))
    ensures ReadAt(WriteAt(file, p, data), q, n) == ReadAt(file, q, n)
  {
    if p + n <= q {
      ReadAfter(file, p, data, q, n);
    } else {
      ReadBefore(file, p, data, q, n);
    }
  }

  lemma PositionsApart(c: Container, s: nat, t: nat)
    requires s < t
    ensures c.offset + c.sectorSize * s + c.sectorSize <= c.offset + c.sectorSize * t
  {
    SectorsApart(c.sectorSize, s, t);
  }

  lemma PutBelow(c: Container, s: nat, data: seq<byte>, t: nat)
    requires |data| == c.sectorSize && s < t
    ensures ReadAt(WriteAt(c.file, c.offset + c.sectorSize * s, data), c.offset + c.sectorSize * t, c.sectorSize)
         == Sector(c, t)
  {
    PositionsApart(c, s, t);
    PutElsewhere(c.file, c.offset + c.sectorSize * s, data, c.offset + c.sectorSize * t, c.sectorSize);
  }

  lemma PutAbove(c: Container, s: nat, data: seq<byte>, t: nat)
    requires |data| == c.sectorSize && t < s && |Sector(c, t)| == c.sectorSize
    ensures ReadAt(WriteAt(c.file, c.offset + c.sectorSize * s, data), c.offset + c.sectorSize * t, c.sectorSize)
         == Sector(c, t)
  {
    PositionsApart(c, t, s);
    PutElsewhere(c.file, c.offset + c.sectorSize * s, data, c.offset + c.sectorSize * t, c.sectorSize);
  }

  lemma PutSectorOther(c: Container, s: nat, data: seq<byte>, t: nat)
    requires |data| <= c.sectorSize && s < |c.fat| && s != t && Readable(c, t)
    ensures Sector(PutSector(c, s, data), t) == Sector(c, t)
  {
    if s < t {
      PutBelow(c, s, Pad(data, c.sectorSize), t);
    } else {
      PutAbove(c, s, Pad(data, c.sectorSize), t);
    }
  }

  /** n sectors hold `length` bytes, the last one at least one of them. */
  predicate Fits(length: int, n: nat, size: nat)
    decreases n
  {
    if n == 0 then length == 0 else if n == 1 then 0 < length <= size
    else length > size && Fits(length - size, n - 1, size)
  }

  /** Writing leaves every readable sector outside the chain as it was. */
  lemma {:induction false} WriteKeepsOther(c: Container, sect: u32, data: seq<byte>, n: nat, t: nat)
    requires Linked(c.fat, sect, n) && Fits(|data|, n, c.sectorSize)
    requires Readable(c, t) && t !in Chain(c.fat, sect, n)
    ensures Sector(WriteFrom(c, sect, data, n).0, t) == Sector(c, t)
    decreases n
  {
    if n == 0 {
    } else {
      var piece := if n > 1 && |data| >= c.sectorSize then data[..c.sectorSize] else data;
      PutSectorOther(c, sect, piece, t);
      assert Chain(c.fat, sect, n)[0] == sect;
      assert Chain(c.fat, sect, n)[1..] == Chain(c.fat, c.fat[sect], n - 1);
      WriteKeepsOther(PutSector(c, sect, piece), c.fat[sect], data[|piece|..], n - 1, t);
    }
  }

  ghost predicate AllFull(c: Container, v: seq<nat>) {
    forall k :: 0 <= k < |v| ==> |Sector(c, v[k])| == c.sectorSize
  }

  /** Writing fills the sectors of the chain with the data and pads the last one. */
  lemma {:induction false} WriteFills(c: Container, sect: u32, data: seq<byte>, n: nat)
    requires Linked(c.fat, sect, n) && Fits(|data|, n, c.sectorSize) && Distinct(Chain(c.fat, sect, n))
    ensures var after := WriteFrom(c, sect, data, n).0;
            && AllFull(after, Chain(c.fat, sect, n))
            && data <= ConcatSectors(after, Chain(c.fat, sect, n))
    ensures WriteFrom(c, sect, data, n).1 == Ok(ChainEnd(c.fat, sect, n))
    decreases n
  {
    if n == 0 {
    } else {
      var piece := if n > 1 && |data| >= c.sectorSize then data[..c.sectorSize] else data;
      var mid, rest := PutSector(c, sect, piece), data[|piece|..];
      var v := Chain(c.fat, sect, n);
      assert v[0] == sect && v[1..] == Chain(c.fat, c.fat[sect], n - 1);
      PutSectorGet(c, sect, piece);
      WriteFills(mid, c.fat[sect], rest, n - 1);
      WriteKeepsOther(mid, c.fat[sect], rest, n - 1, sect);
      var after := WriteFrom(c, sect, data, n).0;
      assert Sector(after, v[0]) == Pad(piece, c.sectorSize);
      FirstFilled(after, v, data, piece);
    }
  }

  lemma {:induction false} FirstFilled(c: Container, v: seq<nat>, data: seq<byte>, piece: seq<byte>)
    requires v != [] && piece <= data && |piece| <= c.sectorSize
    requires Sector(c, v[0]) == Pad(piece, c.sectorSize)
    requires AllFull(c, v[1..]) && data[|piece|..] <= ConcatSectors(c, v[1..])
    requires |piece| == c.sectorSize || piece == data
    ensures AllFull(c, v) && data <= ConcatSectors(c, v)
  {
    forall k | 0 <= k < |v| ensures |Sector(c, v[k])| == c.sectorSize {
      assert k > 0 ==> v[k] == v[1..][k - 1];
    }
    assert data == piece + data[|piece|..];
  }

  lemma {:induction false} FitsCeil(length: nat, n: nat, size: nat)
    requires size > 0 && (n == 0 ==> length == 0) && (n > 0 ==> (n - 1) * size < length <= n * size)
    ensures Fits(length, n, size)
    decreases n
  {
    if n <= 1 {
    } else {
      assert (n - 1) * size == (n - 2) * size + size && n * size == (n - 1) * size + size;
      MulAtLeast(n - 1, size);
      FitsCeil(length - size, n - 1, size);
    }
  }

  lemma {:induction false} CeilFits(length: nat, size: nat)
    requires size > 0
    ensures Fits(length, CeilDiv(length, size), size)
  {
    var n := CeilDiv(length, size);
    var a := length + (size - 1);
    assert a == n * size + a % size;
    assert n > 0 ==> (n - 1) * size == n * size - size;
    if n == 0 {
      assert a < size;
    }
    FitsCeil(length, n, size);
  }

  /** Reopening what was written over a chain of known length. */
  lemma ReopenKnown(c: Container, sect: u32, data: seq<byte>)
    requires c.sectorSize > 0 && Open(c, sect, |data|).Ok? && |data| != UNKNOWN_SIZE
    ensures Write(c, sect, data).1.Ok?
    ensures Open(Write(c, sect, data).0, sect, |data|) == Ok(data)
  {
    var n := CeilDiv(|data|, c.sectorSize);
    WalkIsLinked(c, sect, n, false);
    EndedIsDistinct(c, sect, n, false);
    CeilFits(|data|, c.sectorSize);
    WriteFills(c, sect, data, n);
    var after := Write(c, sect, data).0;
    WalkLinked(after, sect, n, false);
    assert ConcatSectors(after, Chain(c.fat, sect, n))[..|data|] == data;
  }

  lemma {:induction false} SameWalk(c: Container, d: Container, sect: u32, n: nat, unknown: bool)
    requires Walk(c, sect, n, unknown).Ok? && d == c.(file := d.file)
    requires forall k :: 0 <= k < |Walk(c, sect, n, unknown).value.visited| ==>
               Sector(d, Walk(c, sect, n, unknown).value.visited[k]) ==
               Sector(c, Walk(c, sect, n, unknown).value.visited[k])
    ensures Walk(d, sect, n, unknown) == Walk(c, sect, n, unknown)
    decreases n
  {
    if n == 0 || sect == END_OF_CHAIN {
    } else {
      var v := Walk(c, sect, n, unknown).value.visited;
      assert v[0] == sect && v[1..] == Walk(c, c.fat[sect], n - 1, unknown).value.visited;
      forall k | 0 <= k < |v| - 1 ensures Sector(d, v[1..][k]) == Sector(c, v[1..][k]) {
        assert v[1..][k] == v[k + 1];
      }
      SameWalk(c, d, c.fat[sect], n - 1, unknown);
    }
  }

  // A stream of size 0x7FFFFFFF is taken for one of unknown size when it is opened.

  lemma {:induction false} WrittenIsLinked(c: Container, sect: u32, data: seq<byte>, n: nat)
    requires |c.fat| <= END_OF_CHAIN && WriteFrom(c, sect, data, n).1.Ok?
    ensures Linked(c.fat, sect, n) && WriteFrom(c, sect, data, n).1 == Ok(ChainEnd(c.fat, sect, n))
    decreases n
  {
    if n == 0 {
    } else {
      var piece := if n > 1 && |data| >= c.sectorSize then data[..c.sectorSize] else data;
      WrittenIsLinked(PutSector(c, sect, piece), c.fat[sect], data[|piece|..], n - 1);
    }
  }

  lemma {:induction false} EndedChainDistinct(fat: seq<u32>, sect: u32, n: nat)
    requires Linked(fat, sect, n) && ChainEnd(fat, sect, n) == END_OF_CHAIN
    ensures Distinct(Chain(fat, sect, n))
  {
    var c := Container([], 0, 0, fat);
    WalkLinked(c, sect, n, false);
    EndedIsDistinct(c, sect, n, false);
  }

  lemma {:induction false} LinkedIsWritten(c: Container, sect: u32, data: seq<byte>, n: nat)
    requires Linked(c.fat, sect, n)
    ensures WriteFrom(c, sect, data, n).1 == Ok(ChainEnd(c.fat, sect, n))
    decreases n
  {
    if n == 0 {
    } else {
      var piece := if n > 1 && |data| >= c.sectorSize then data[..c.sectorSize] else data;
      LinkedIsWritten(PutSector(c, sect, piece), c.fat[sect], data[|piece|..], n - 1);
    }
  }

  /** A write goes through exactly when the chain ends after as many sectors as the data needs. */
  lemma {:induction false} WriteExactly(c: Container, sect: u32, data: seq<byte>)
    requires c.sectorSize > 0 && |c.fat| <= END_OF_CHAIN
    ensures var n := CeilDiv(|data|, c.sectorSize);
            Write(c, sect, data).1.Ok? <==> Linked(c.fat, sect, n) && ChainEnd(c.fat, sect, n) == END_OF_CHAIN
  {
    var n := CeilDiv(|data|, c.sectorSize);
    if Linked(c.fat, sect, n) {
      LinkedIsWritten(c, sect, data, n);
    }
    if WriteFrom(c, sect, data, n).1.Ok? {
      WrittenIsLinked(c, sect, data, n);
    }
  }

  /** Distinct numbers below n are at most n. */
  lemma {:induction false} DistinctBelow(v: seq<nat>, n: nat)
    requires Distinct(v) && forall k :: 0 <= k < |v| ==> v[k] < n
    ensures |v| <= n
    decreases n
  {
    if v == [] {
    } else {
      assert v[0] < n;
      if p: nat :| p < |v| && v[p] == n - 1 {
        DistinctBelow(v[..p] + v[p + 1..], n - 1);
      } else {
        DistinctBelow(v, n - 1);
      }
    }
  }

  lemma WrittenEnded(c: Container, sect: u32, data: seq<byte>, n: nat)
    requires c.sectorSize > 0 && |c.fat| <= END_OF_CHAIN && n == CeilDiv(|data|, c.sectorSize)
    requires Write(c, sect, data).1.Ok?
    ensures Ended(Write(c, sect, data).0, sect, n) && data <= Held(Write(c, sect, data).0, sect, n)
  {
    WrittenIsLinked(c, sect, data, n);
    EndedChainDistinct(c.fat, sect, n);
    DistinctBelow(Chain(c.fat, sect, n), |c.fat|);
    CeilFits(|data|, c.sectorSize);
    WriteFills(c, sect, data, n);
  }

  /** What a write that goes through has written is read back, even where the stream could not be opened before. */
  lemma WrittenReopens(c: Container, sect: u32, data: seq<byte>)
    requires c.sectorSize > 0 && |c.fat| <= END_OF_CHAIN
    requires Write(c, sect, data).1.Ok? && |data| != UNKNOWN_SIZE
    ensures Open(Write(c, sect, data).0, sect, |data|) == Ok(data)
  {
    var n := CeilDiv(|data|, c.sectorSize);
    var after := Write(c, sect, data).0;
    WrittenEnded(c, sect, data, n);
    KnownWalked(after, sect, |data|, n);
    var held := Held(after, sect, n);
    assert |data| <= |held| && held[..|data|] == data;
  }

  /** A write that goes through visits what opening the stream visits, whatever its size. */
  lemma {:induction false} WrittenVisited(c: Container, sect: u32, data: seq<byte>, n: nat)
    requires c.sectorSize > 0 && Open(c, sect, |data|).Ok? && n == CeilDiv(|data|, c.sectorSize)
    requires |data| != UNKNOWN_SIZE || (|c.fat| <= END_OF_CHAIN && Write(c, sect, data).1.Ok?)
    ensures Linked(c.fat, sect, n) && Visited(c, sect, |data|) == Chain(c.fat, sect, n)
  {
    if |data| != UNKNOWN_SIZE {
      WalkIsLinked(c, sect, n, false);
    } else {
      WalkIsLinked(c, sect, CeilDiv(DeclaredSize(c, |data|), c.sectorSize), true);
      WrittenIsLinked(c, sect, data, n);
      SameEnd(c.fat, sect, n, |Visited(c, sect, |data|)|);
    }
  }

  lemma {:induction false} OtherSectorKept(c: Container, sect: u32, data: seq<byte>, n: nat, t: nat)
    requires c.sectorSize > 0 && n == CeilDiv(|data|, c.sectorSize) && Linked(c.fat, sect, n)
    requires Readable(c, t) && t !in Chain(c.fat, sect, n)
    ensures Sector(Write(c, sect, data).0, t) == Sector(c, t)
  {
    CeilFits(|data|, c.sectorSize);
    WriteKeepsOther(c, sect, data, n, t);
  }

  /**
   A stream whose chain shares no sector with the one written reads as before. For data of the length that
   stands for an unknown size, this is promised only when the write goes through.
   */
  lemma OtherStreamKept(c: Container, sect: u32, data: seq<byte>, other: u32, size: nat)
    requires c.sectorSize > 0 && Open(c, sect, |data|).Ok?
    requires |data| != UNKNOWN_SIZE || (|c.fat| <= END_OF_CHAIN && Write(c, sect, data).1.Ok?)
    requires Open(c, other, size).Ok?
    requires forall t :: t in Visited(c, other, size) ==> t !in Visited(c, sect, |data|)
    ensures Open(Write(c, sect, data).0, other, size) == Open(c, other, size)
  {
    var n := CeilDiv(|data|, c.sectorSize);
    var m, unknown := CeilDiv(DeclaredSize(c, size), c.sectorSize), size == UNKNOWN_SIZE;
    WalkIsLinked(c, other, m, unknown);
    WrittenVisited(c, sect, data, n);
    var v := Visited(c, other, size);
    forall k | 0 <= k < |v| ensures Sector(Write(c, sect, data).0, v[k]) == Sector(c, v[k]) {
      assert v[k] in v;
      OtherSectorKept(c, sect, data, n, v[k]);
    }
    SameWalk(c, Write(c, sect, data).0, other, m, unknown);
  }

  lemma {:induction false} FullLength(c: Container, v: seq<nat>)
    requires AllFull(c, v)
    ensures |ConcatSectors(c, v)| == |v| * c.sectorSize
    decreases v
  {
    if v == [] {
    } else {
      forall k | 0 <= k < |v| - 1 ensures |Sector(c, v[1..][k])| == c.sectorSize {
        assert v[1..][k] == v[k + 1];
      }
      FullLength(c, v[1..]);
      assert |v| * c.sectorSize == |v[1..]| * c.sectorSize + c.sectorSize;
    }
  }

  /** All sectors are full after the write, so whatever a reopen gives has a length that is a multiple of theirs. */
  lemma ReopenUnknown(c: Container, sect: u32, data: seq<byte>)
    requires c.sectorSize == 512 || c.sectorSize == 4096
    requires |c.fat| <= END_OF_CHAIN && |data| == UNKNOWN_SIZE
    requires Write(c, sect, data).1.Ok? && Open(Write(c, sect, data).0, sect, |data|).Ok?
    ensures |Open(Write(c, sect, data).0, sect, |data|).value| % 512 == 0
  {
    var n := CeilDiv(|data|, c.sectorSize);
    WrittenIsLinked(c, sect, data, n);
    EndedChainDistinct(c.fat, sect, n);
    CeilFits(|data|, c.sectorSize);
    WriteFills(c, sect, data, n);
    var after := Write(c, sect, data).0;
    var m := CeilDiv(DeclaredSize(c, |data|), c.sectorSize);
    WalkIsLinked(after, sect, m, true);
    var v := Walk(after, sect, m, true).value.visited;
    SameEnd(c.fat, sect, n, |v|);
    WalkReadsSectors(after, sect, m, true);
    FullLength(after, v);
    Multiple(|v|, c.sectorSize);
    Multiple(|c.fat|, c.sectorSize);
  }

  lemma Multiple(k: nat, size: nat)
    requires size == 512 || size == 4096
    ensures k * size % 512 == 0
  {
  }

  lemma UnknownDiffers(c: Container, sect: u32, data: seq<byte>)
    requires c.sectorSize == 512 || c.sectorSize == 4096
    requires |c.fat| <= END_OF_CHAIN && |data| == UNKNOWN_SIZE
    ensures Write(c, sect, data).1.Ok? ==> Open(Write(c, sect, data).0, sect, |data|) != Ok(data)
  {
    var (after, r) := Write(c, sect, data);
    if r.Ok? && Open(after, sect, |data|).Ok? {
      ReopenUnknown(c, sect, data);
      assert |data| % 512 == 511;
      assert |Open(after, sect, |data|).value| != |data|;
    }
  }

  /**
   For a stream that can be opened: writing data of its size and reopening it gives back that data,
   except when the size is the number that stands for an unknown size.
   */
  lemma ReopenAfterWrite(c: Container, sect: u32, data: seq<byte>)
    requires c.sectorSize == 512 || c.sectorSize == 4096
    requires |c.fat| <= END_OF_CHAIN && Open(c, sect, |data|).Ok?
    ensures (Write(c, sect, data).1.Ok? && Open(Write(c, sect, data).0, sect, |data|) == Ok(data))
       <==> |data| != UNKNOWN_SIZE
  {
    if |data| != UNKNOWN_SIZE {
      ReopenKnown(c, sect, data);
    } else {
      UnknownDiffers(c, sect, data);
    }
  }

  // One such stream.

  /** A table in which every sector leads to the next one. */
  function Straight(n: nat): (fat: seq<u32>)
    requires n < END_OF_CHAIN
    ensures |fat| == n
  {
    seq(n, i requires 0 <= i < n => if i + 1 < n then (i + 1) as u32 else END_OF_CHAIN)
  }

  lemma {:induction false} StraightLinked(n: nat, k: u32)
    requires n < END_OF_CHAIN && k < n
    ensures Linked(Straight(n), k, n - k) && ChainEnd(Straight(n), k, n - k) == END_OF_CHAIN
    decreases n - k
  {
    if k + 1 == n {
      assert ChainEnd(Straight(n), END_OF_CHAIN, 0) == END_OF_CHAIN;
    } else {
      StraightLinked(n, k + 1);
    }
  }

  /** A container of n sectors of zero bytes, all of one stream. */
  function OneStream(n: nat): Container
    requires n < END_OF_CHAIN
  {
    Container(ZeroBytes(4096 + 4096 * n), 4096, 4096, Straight(n))
  }

  lemma OneStreamReadable(n: nat, t: nat)
    requires t < n < END_OF_CHAIN
    ensures |Sector(OneStream(n), t)| == 4096
  {
    assert 4096 + 4096 * t + 4096 <= 4096 + 4096 * n;
  }

  lemma OneStreamOpens(n: nat)
    requires 0 < n < END_OF_CHAIN
    ensures Open(OneStream(n), 0, UNKNOWN_SIZE).Ok?
  {
    var c := OneStream(n);
    StraightLinked(n, 0);
    forall t | 0 <= t < n ensures Readable(c, t) && |Sector(c, t)| == 4096 {
      OneStreamReadable(n, t);
    }
    WalkLinked(c, 0, n, true);
    FullLength(c, Chain(c.fat, 0, n));
    assert CeilDiv(n * 4096, 4096) == n;
  }

  lemma OneStreamTakes(n: nat, data: seq<byte>)
    requires 0 < n < END_OF_CHAIN && n == CeilDiv(|data|, 4096)
    ensures Write(OneStream(n), 0, data).1.Ok?
  {
    var c := OneStream(n);
    StraightLinked(n, 0);
    EndedChainDistinct(c.fat, 0, n);
    CeilFits(|data|, 4096);
    WriteFills(c, 0, data, n);
  }

  /** A stream that can be opened and written, without complaint, and that does not read as it was written. */
  lemma ReopenDiffers(n: nat, data: seq<byte>)
    requires |data| == UNKNOWN_SIZE && n == CeilDiv(UNKNOWN_SIZE, 4096)
    ensures n == 524288
    ensures var c := OneStream(n);
            && Open(c, 0, |data|).Ok? && Write(c, 0, data).1.Ok?
            && Open(Write(c, 0, data).0, 0, |data|) != Ok(data)
  {
    OneStreamOpens(n);
    OneStreamTakes(n, data);
    UnknownDiffers(OneStream(n), 0, data);
  }

  /** A directory entry, as far as writing needs it. */
  datatype StreamEntry = StreamEntry(isStream: bool, isectStart: u32, size: nat)

  lemma NextSector(size: nat, sect: nat)
    ensures size * (sect + 1) == size + size * sect
  {
  }

  class OleFile {
    var fp: seq<byte>
    const sectorSize: nat
    const miniSectorCutoff: nat
    const fat: seq<u32>

    constructor (fp: seq<byte>, sectorSize: nat, miniSectorCutoff: nat, fat: seq<u32>)
      requires sectorSize > 0
      ensures Contents() == Container(fp, sectorSize, sectorSize, fat)
      ensures this.miniSectorCutoff == miniSectorCutoff && this.sectorSize == sectorSize
    {
      this.fp, this.sectorSize, this.miniSectorCutoff, this.fat := fp, sectorSize, miniSectorCutoff, fat;
    }

    /** The container of the FAT streams: sector 0 comes after one header sector. */
    function Contents(): Container
      reads this
    {
      Container(fp, sectorSize, sectorSize, fat)
    }

    method WriteSect(sect: nat, data: seq<byte>)
      requires |data| <= sectorSize
      modifies this
      ensures Contents() == PutSector(old(Contents()), sect, data)
    {
      ghost var c := Contents();
      var padded := if |data| < sectorSize then data + ZeroBytes(sectorSize - |data|) else data;
      NextSector(sectorSize, sect);
      fp := WriteAt(fp, sectorSize * (sect + 1), padded);
      assert padded == Pad(data, sectorSize);
      assert fp == PutSector(c, sect, data).file;
    }

    /** write_stream, once the entry is found. */
    method WriteStream(entry: StreamEntry, data: seq<byte>) returns (r: Result<(), Error>)
      requires sectorSize > 0
      modifies this
      ensures !entry.isStream || entry.size != |data| || entry.size < miniSectorCutoff ==>
                r.Err? && Contents() == old(Contents())
      ensures entry.isStream && entry.size == |data| && entry.size >= miniSectorCutoff ==>
                (Contents(), r) == Write(old(Contents()), entry.isectStart, data)
    {
      if !entry.isStream {
        return Err(NotAStream);
      }
      if entry.size != |data| {
        return Err(WrongSize);
      }
      if entry.size < miniSectorCutoff {
        return Err(NotImplemented);
      }
      var sect: u32 := entry.isectStart;
      var n := CeilDiv(entry.size, sectorSize);
      CeilFits(|data|, sectorSize);
      ghost var goal := WriteFrom(Contents(), sect, data, n);
      var rest := data;
      var i := 0;
      while i < n
        invariant i <= n && Fits(|rest|, n - i, sectorSize)
        invariant WriteFrom(Contents(), sect, rest, n - i) == goal
      {
        var piece := if i < n - 1 then rest[..sectorSize] else rest;
        WriteSect(sect, piece);
        rest := rest[|piece|..];
        if sect >= |fat| {
          return Err(IndexOutOfRange);
        }
        sect := fat[sect];
        i := i + 1;
      }
      if sect != END_OF_CHAIN {
        return Err(BadLastSector);
      }
      return Ok(());
    }
  }
}
