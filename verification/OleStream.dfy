/**
 Sector chains of the OLE compound files of bin/office2john.py ([MS-CFB] section 2.3): opening a stream
 follows its chain in the FAT, writing a stream replaces its sectors in place.
 */
module OleStream {
  import opened Bits
  import opened Wrappers

  type u32 = x: int | 0 <= x < 0x1_0000_0000

  const END_OF_CHAIN: u32 := 0xFFFFFFFE
  const UNKNOWN_SIZE := 0x7FFFFFFF

  /** The messages of the IOError and the other exceptions that the code raises. */
  datatype Error =
    | StreamTooLarge
    | BadEmptyStream
    | IncompleteStream
    | IndexOutOfRange
    | IncompleteSector
    | BadLastSector
    | ShorterThanDeclared
    | NotAStream
    | WrongSize
    | NotImplemented

  /** What a stream is read from: the bytes, where sector 0 begins, and the table that links the sectors. */
  datatype Container = Container(file: seq<byte>, offset: nat, sectorSize: nat, fat: seq<u32>)

  /** seek and read: fewer than n bytes at the end of the file. */
  function ReadAt(file: seq<byte>, pos: nat, n: nat): (r: seq<byte>)
    ensures |r| <= n
  {
    if pos >= |file| then [] else if pos + n <= |file| then file[pos..pos + n] else file[pos..]
  }

  function Sector(c: Container, s: nat): seq<byte> {
    ReadAt(c.file, c.offset + c.sectorSize * s, c.sectorSize)
  }

  /** What following the chain gave: the data read, the sectors visited, and the index after the last one. */
  datatype Walked = Walked(data: seq<byte>, visited: seq<nat>, last: u32)

  /** At most n steps along the chain; without a known size the chain may end before. */
  function Walk(c: Container, sect: u32, n: nat, unknown: bool): (r: Result<Walked, Error>)
    ensures r.Ok? ==> |r.value.visited| <= n && (unknown || |r.value.visited| == n)
    decreases n
  {
    if n == 0 then Ok(Walked([], [], sect))
    else if sect == END_OF_CHAIN then if unknown then Ok(Walked([], [], sect)) else Err(IncompleteStream)
    else if sect >= |c.fat| then Err(IndexOutOfRange)
    else if |Sector(c, sect)| != c.sectorSize && sect != |c.fat| - 1 then Err(IncompleteSector)
    else
      match Walk(c, c.fat[sect], n - 1, unknown)
      case Err(e) => Err(e)
      case Ok(w) => Ok(Walked(Sector(c, sect) + w.data, [sect as nat] + w.visited, w.last))
  }

  function CeilDiv(a: nat, b: nat): nat
    requires b > 0
  {
    (a + (b - 1)) / b
  }

  /** The size to read up to: the whole table when the size is not known. */
  function DeclaredSize(c: Container, size: nat): nat {
    if size == UNKNOWN_SIZE then |c.fat| * c.sectorSize else size
  }

  function Finish(w: Walked, size: nat, unknown: bool): Result<seq<byte>, Error> {
    if w.last != END_OF_CHAIN then Err(BadLastSector)
    else if |w.data| >= size then Ok(w.data[..size])
    else if unknown then Ok(w.data)
    else Err(ShorterThanDeclared)
  }

  /** The contents of the stream that starts at a sector. */
  function Open(c: Container, sect: u32, size: nat): Result<seq<byte>, Error>
    requires c.sectorSize > 0
  {
    var full := DeclaredSize(c, size);
    var n := CeilDiv(full, c.sectorSize);
    if n > |c.fat| then Err(StreamTooLarge)
    else if full == 0 && sect != END_OF_CHAIN then Err(BadEmptyStream)
    else
      match Walk(c, sect, n, size == UNKNOWN_SIZE)
      case Err(e) => Err(e)
      case Ok(w) => Finish(w, full, size == UNKNOWN_SIZE)
  }

  /** The loop of _OleStream: data, sectors visited, and the index it stopped at. */
  method WalkChain(c: Container, start: u32, n: nat, unknown: bool) returns (r: Result<Walked, Error>)
    ensures r == Walk(c, start, n, unknown)
  {
    var sect: u32, data: seq<byte>, visited: seq<nat> := start, [], [];
    AfterNothing(Walk(c, start, n, unknown));
    var i := 0;
    while i < n
      invariant i <= n
      invariant Walk(c, start, n, unknown) == After(data, visited, Walk(c, sect, n - i, unknown))
      decreases n - i
    {
      if sect == END_OF_CHAIN {
        if unknown {
          break;
        }
        return Err(IncompleteStream);
      }
      if sect >= |c.fat| {
        return Err(IndexOutOfRange);
      }
      var sectorData := Sector(c, sect);
      if |sectorData| != c.sectorSize && sect != |c.fat| - 1 {
        return Err(IncompleteSector);
      }
      AfterOne(data, visited, c, sect, n - i, unknown);
      data := data + sectorData;
      visited := visited + [sect];
      sect := c.fat[sect];
      i := i + 1;
    }
    assert data + [] == data && visited + [] == visited;
    return Ok(Walked(data, visited, sect));
  }

  /** The constructor of _OleStream: what it passes to BytesIO. */
  method OpenStream(c: Container, start: u32, size: nat) returns (r: Result<seq<byte>, Error>)
    requires c.sectorSize > 0
    ensures r == Open(c, start, size)
  {
    var unknown := size == UNKNOWN_SIZE;
    var full := if unknown then |c.fat| * c.sectorSize else size;
    var n := CeilDiv(full, c.sectorSize);
    if n > |c.fat| {
      return Err(StreamTooLarge);
    }
    if full == 0 && start != END_OF_CHAIN {
      return Err(BadEmptyStream);
    }
    var walked := WalkChain(c, start, n, unknown);
    if walked.Err? {
      return Err(walked.error);
    }
    var Walked(data, _, sect) := walked.value;
    if sect != END_OF_CHAIN {
      return Err(BadLastSector);
    }
    if |data| >= full {
      return Ok(data[..full]);
    }
    if unknown {
      return Ok(data);
    }
    return Err(ShorterThanDeclared);
  }

  function After(data: seq<byte>, visited: seq<nat>, r: Result<Walked, Error>): Result<Walked, Error> {
    if r.Ok? then Ok(Walked(data + r.value.data, visited + r.value.visited, r.value.last)) else r
  }

  lemma AfterNothing(r: Result<Walked, Error>)
    ensures After([], [], r) == r
  {
    if r.Ok? {
      assert [] + r.value.data == r.value.data && [] + r.value.visited == r.value.visited;
    }
  }

  lemma AfterOne(data: seq<byte>, visited: seq<nat>, c: Container, sect: u32, n: nat, unknown: bool)
    requires n > 0 && sect != END_OF_CHAIN && sect < |c.fat|
    requires |Sector(c, sect)| == c.sectorSize || sect == |c.fat| - 1
    ensures After(data, visited, Walk(c, sect, n, unknown))
         == After(data + Sector(c, sect), visited + [sect], Walk(c, c.fat[sect], n - 1, unknown))
  {
    var r := Walk(c, c.fat[sect], n - 1, unknown);
    if r.Ok? {
      assert data + (Sector(c, sect) + r.value.data) == data + Sector(c, sect) + r.value.data;
      assert visited + ([sect as nat] + r.value.visited) == visited + [sect] + r.value.visited;
    }
  }

  // Chains.

  /** The index after k links, if the chain goes that far. */
  function Follow(fat: seq<u32>, sect: u32, k: nat): Option<u32>
    decreases k
  {
    if k == 0 then Some(sect)
    else if sect == END_OF_CHAIN || sect >= |fat| then None
    else Follow(fat, fat[sect], k - 1)
  }

  lemma {:induction false} WalkFollows(c: Container, sect: u32, n: nat, unknown: bool, k: nat)
    requires Walk(c, sect, n, unknown).Ok?
    ensures var v := Walk(c, sect, n, unknown).value.visited;
            k < |v| ==> v[k] < |c.fat| && v[k] != END_OF_CHAIN && Follow(c.fat, sect, k) == Some(v[k])
    decreases n
  {
    if n == 0 || sect == END_OF_CHAIN || k == 0 {
    } else {
      WalkFollows(c, c.fat[sect], n - 1, unknown, k - 1);
    }
  }

  lemma {:induction false} WalkEnds(c: Container, sect: u32, n: nat, unknown: bool)
    requires Walk(c, sect, n, unknown).Ok?
    ensures var w := Walk(c, sect, n, unknown).value; Follow(c.fat, sect, |w.visited|) == Some(w.last)
    decreases n
  {
    if n == 0 || sect == END_OF_CHAIN {
    } else {
      WalkEnds(c, c.fat[sect], n - 1, unknown);
    }
  }

  lemma {:induction false} FollowTwice(fat: seq<u32>, sect: u32, i: nat, t: nat)
    requires Follow(fat, sect, i).Some?
    ensures Follow(fat, sect, i + t) == Follow(fat, Follow(fat, sect, i).value, t)
    decreases i
  {
    if i == 0 {
    } else {
      FollowTwice(fat, fat[sect], i - 1, t);
    }
  }

  ghost predicate Distinct(v: seq<nat>) {
    forall i, j :: 0 <= i < j < |v| ==> v[i] != v[j]
  }

  /** A chain that reaches its end has no sector twice. */
  lemma {:induction false} EndedIsDistinct(c: Container, sect: u32, n: nat, unknown: bool)
    requires Walk(c, sect, n, unknown).Ok? && Walk(c, sect, n, unknown).value.last == END_OF_CHAIN
    ensures Distinct(Walk(c, sect, n, unknown).value.visited)
  {
    var v := Walk(c, sect, n, unknown).value.visited;
    forall i, j | 0 <= i < j < |v| ensures v[i] != v[j] {
      WalkFollows(c, sect, n, unknown, i);
      WalkFollows(c, sect, n, unknown, j);
      WalkEnds(c, sect, n, unknown);
      if v[i] == v[j] {
        FollowTwice(c.fat, sect, i, |v| - j);
        FollowTwice(c.fat, sect, j, |v| - j);
        WalkFollows(c, sect, n, unknown, i + (|v| - j));
        assert false;
      }
    }
  }

  /** A chain that comes back to a sector never opens. */
  lemma {:induction false} CyclicNeverOpens(c: Container, sect: u32, size: nat, i: nat, j: nat)
    requires c.sectorSize > 0 && i < j
    requires Follow(c.fat, sect, i).Some? && Follow(c.fat, sect, i) == Follow(c.fat, sect, j)
    ensures Open(c, sect, size).Err?
  {
    var n := CeilDiv(DeclaredSize(c, size), c.sectorSize);
    var r := Walk(c, sect, n, size == UNKNOWN_SIZE);
    if r.Ok? && r.value.last == END_OF_CHAIN {
      var m := |r.value.visited|;
      WalkEnds(c, sect, n, size == UNKNOWN_SIZE);
      if j <= m {
        FollowTwice(c.fat, sect, i, m - j);
        FollowTwice(c.fat, sect, j, m - j);
        WalkFollows(c, sect, n, size == UNKNOWN_SIZE, i + (m - j));
      } else {
        FollowTwice(c.fat, sect, m, j - m);
      }
      assert false;
    }
  }

  function ConcatSectors(c: Container, v: seq<nat>): seq<byte> {
    if v == [] then [] else Sector(c, v[0]) + ConcatSectors(c, v[1..])
  }

  lemma {:induction false} WalkReadsSectors(c: Container, sect: u32, n: nat, unknown: bool)
    requires Walk(c, sect, n, unknown).Ok?
    ensures var w := Walk(c, sect, n, unknown).value; w.data == ConcatSectors(c, w.visited)
    decreases n
  {
    if n == 0 || sect == END_OF_CHAIN {
    } else {
      WalkReadsSectors(c, c.fat[sect], n - 1, unknown);
      var w := Walk(c, sect, n, unknown).value;
      assert w.visited[1..] == Walk(c, c.fat[sect], n - 1, unknown).value.visited;
    }
  }

  /** The sectors that opening a stream visits. */
  function Visited(c: Container, sect: u32, size: nat): seq<nat>
    requires c.sectorSize > 0 && Open(c, sect, size).Ok?
  {
    Walk(c, sect, CeilDiv(DeclaredSize(c, size), c.sectorSize), size == UNKNOWN_SIZE).value.visited
  }

  /**
   A successful open follows the chain from its first sector to its end, visits no sector twice and no
   more than the table has, just ceil(size / sector size) when the size is known, and gives the
   concatenation of those sectors, cut to the size.
   */
  lemma {:induction false} OpenReadsChain(c: Container, sect: u32, size: nat)
    requires c.sectorSize > 0 && Open(c, sect, size).Ok?
    ensures var v := Visited(c, sect, size);
            && Distinct(v) && |v| <= |c.fat|
            && (forall k :: 0 <= k < |v| ==> v[k] < |c.fat| && Follow(c.fat, sect, k) == Some(v[k]))
            && Follow(c.fat, sect, |v|) == Some(END_OF_CHAIN)
            && (size != UNKNOWN_SIZE ==> |v| == CeilDiv(size, c.sectorSize))
            && Open(c, sect, size).value <= ConcatSectors(c, v)
            && (size != UNKNOWN_SIZE ==> |Open(c, sect, size).value| == size)
            && (size == UNKNOWN_SIZE ==> Open(c, sect, size).value == ConcatSectors(c, v))
  {
    var n := CeilDiv(DeclaredSize(c, size), c.sectorSize);
    var unknown := size == UNKNOWN_SIZE;
    var v := Visited(c, sect, size);
    EndedIsDistinct(c, sect, n, unknown);
    WalkEnds(c, sect, n, unknown);
    WalkReadsSectors(c, sect, n, unknown);
    HeldFits(c, v);
    MulMonotone(|v|, n, c.sectorSize);
    WholeTable(|c.fat|, c.sectorSize);
    forall k | 0 <= k < |v| ensures v[k] < |c.fat| && Follow(c.fat, sect, k) == Some(v[k]) {
      WalkFollows(c, sect, n, unknown, k);
    }
  }

  /** n links from a sector stay inside the table. */
  predicate Linked(fat: seq<u32>, sect: u32, n: nat)
    decreases n
  {
    n == 0 || (sect != END_OF_CHAIN && sect < |fat| && Linked(fat, fat[sect], n - 1))
  }

  function Chain(fat: seq<u32>, sect: u32, n: nat): (v: seq<nat>)
    requires Linked(fat, sect, n)
    ensures |v| == n && forall k :: 0 <= k < n ==> v[k] < |fat|
    decreases n
  {
    if n == 0 then [] else [sect as nat] + Chain(fat, fat[sect], n - 1)
  }

  function ChainEnd(fat: seq<u32>, sect: u32, n: nat): u32
    requires Linked(fat, sect, n)
    decreases n
  {
    if n == 0 then sect else ChainEnd(fat, fat[sect], n - 1)
  }

  /** A sector that reading accepts: in full, or the last one of the table. */
  predicate Readable(c: Container, t: nat) {
    t < |c.fat| && (|Sector(c, t)| == c.sectorSize || t == |c.fat| - 1)
  }

  /** Following a chain whose sectors are all readable. */
  lemma {:induction false} WalkLinked(c: Container, sect: u32, n: nat, unknown: bool)
    requires Linked(c.fat, sect, n)
    requires forall k :: 0 <= k < n ==> Readable(c, Chain(c.fat, sect, n)[k])
    ensures Walk(c, sect, n, unknown)
         == Ok(Walked(ConcatSectors(c, Chain(c.fat, sect, n)), Chain(c.fat, sect, n), ChainEnd(c.fat, sect, n)))
    decreases n
  {
    if n == 0 {
    } else {
      var v := Chain(c.fat, sect, n);
      assert v[0] == sect && v[1..] == Chain(c.fat, c.fat[sect], n - 1);
      assert Readable(c, v[0]);
      forall k | 0 <= k < n - 1 ensures Readable(c, v[1..][k]) {
        assert v[1..][k] == v[k + 1];
      }
      WalkLinked(c, c.fat[sect], n - 1, unknown);
    }
  }

  /** A walk of n steps goes along n links, and over readable sectors only. */
  lemma {:induction false} WalkIsLinked(c: Container, sect: u32, n: nat, unknown: bool)
    requires Walk(c, sect, n, unknown).Ok?
    ensures var w := Walk(c, sect, n, unknown).value;
            && Linked(c.fat, sect, |w.visited|)
            && w.visited == Chain(c.fat, sect, |w.visited|) && w.last == ChainEnd(c.fat, sect, |w.visited|)
            && forall k :: 0 <= k < |w.visited| ==> Readable(c, w.visited[k])
    decreases n
  {
    if n == 0 || sect == END_OF_CHAIN {
    } else {
      WalkIsLinked(c, c.fat[sect], n - 1, unknown);
      var w := Walk(c, sect, n, unknown).value;
      assert w.visited[0] == sect;
      assert w.visited[1..] == Walk(c, c.fat[sect], n - 1, unknown).value.visited;
    }
  }

  /** A chain ends only once. */
  lemma {:induction false} SameEnd(fat: seq<u32>, sect: u32, n: nat, m: nat)
    requires Linked(fat, sect, n) && Linked(fat, sect, m)
    requires ChainEnd(fat, sect, n) == END_OF_CHAIN && ChainEnd(fat, sect, m) == END_OF_CHAIN
    ensures n == m
    decreases n
  {
    if n == 0 || m == 0 {
    } else {
      SameEnd(fat, fat[sect], n - 1, m - 1);
    }
  }

  // When a stream opens.

  /** The chain from a sector ends after m links, and reading accepts all its sectors. */
  predicate Ended(c: Container, sect: u32, m: nat) {
    && m <= |c.fat| && Linked(c.fat, sect, m) && ChainEnd(c.fat, sect, m) == END_OF_CHAIN
    && forall k :: 0 <= k < m ==> Readable(c, Chain(c.fat, sect, m)[k])
  }

  /** What a chain of m sectors holds. */
  function Held(c: Container, sect: u32, m: nat): seq<byte>
    requires Ended(c, sect, m)
  {
    ConcatSectors(c, Chain(c.fat, sect, m))
  }

  lemma {:induction false} HeldFits(c: Container, v: seq<nat>)
    ensures |ConcatSectors(c, v)| <= |v| * c.sectorSize
  {
    if v == [] {
    } else {
      HeldFits(c, v[1..]);
      assert |v| * c.sectorSize == |v[1..]| * c.sectorSize + c.sectorSize;
    }
  }

  /** Walking n steps along a chain that ends before them, or with them, stops at its end. */
  lemma {:induction false} WalkEnded(c: Container, sect: u32, m: nat, n: nat, unknown: bool)
    requires Linked(c.fat, sect, m) && ChainEnd(c.fat, sect, m) == END_OF_CHAIN
    requires forall k :: 0 <= k < m ==> Readable(c, Chain(c.fat, sect, m)[k])
    requires m == n || (m < n && unknown)
    ensures Walk(c, sect, n, unknown)
         == Ok(Walked(ConcatSectors(c, Chain(c.fat, sect, m)), Chain(c.fat, sect, m), END_OF_CHAIN))
    decreases m
  {
    if m == 0 {
    } else {
      var v := Chain(c.fat, sect, m);
      assert v[0] == sect && v[1..] == Chain(c.fat, c.fat[sect], m - 1);
      assert Readable(c, v[0]);
      forall k | 0 <= k < m - 1 ensures Readable(c, v[1..][k]) {
        assert v[1..][k] == v[k + 1];
      }
      WalkEnded(c, c.fat[sect], m - 1, n - 1, unknown);
    }
  }

  /** The steps allowed without a known size are as many as the table has entries. */
  lemma WholeTable(n: nat, size: nat)
    requires size > 0
    ensures CeilDiv(n * size, size) == n
  {
    DivUnique(n * size + (size - 1), size, n, size - 1);
  }

  lemma NoSectors(size: nat)
    requires size > 0
    ensures CeilDiv(0, size) == 0
  {
    DivUnique(size - 1, size, 0, size - 1);
  }

  lemma MulMonotone(a: nat, b: nat, size: nat)
    requires a <= b
    ensures a * size <= b * size
  {
    assert b * size == a * size + (b - a) * size;
  }

  lemma EndedOpens(c: Container, sect: u32, m: nat)
    requires c.sectorSize > 0 && Ended(c, sect, m)
    ensures Open(c, sect, UNKNOWN_SIZE) == Ok(Held(c, sect, m))
  {
    WholeTable(|c.fat|, c.sectorSize);
    WalkEnded(c, sect, m, |c.fat|, true);
    HeldFits(c, Chain(c.fat, sect, m));
    MulMonotone(m, |c.fat|, c.sectorSize);
    if |c.fat| > 0 {
      MulAtLeast(|c.fat|, c.sectorSize);
    }
    var data := Held(c, sect, m);
    assert |data| >= |c.fat| * c.sectorSize ==> data[..|c.fat| * c.sectorSize] == data;
  }

  lemma OpenedEnds(c: Container, sect: u32, size: nat)
    requires c.sectorSize > 0 && Open(c, sect, size).Ok?
    ensures Ended(c, sect, |Visited(c, sect, size)|)
  {
    WalkIsLinked(c, sect, CeilDiv(DeclaredSize(c, size), c.sectorSize), size == UNKNOWN_SIZE);
  }

  /**
   A stream of unknown size opens exactly when its chain ends within the table, over sectors that reading
   accepts; then all that they hold is the stream.
   */
  lemma OpenUnknownExactly(c: Container, sect: u32)
    requires c.sectorSize > 0
    ensures Open(c, sect, UNKNOWN_SIZE).Ok? <==> exists m: nat :: Ended(c, sect, m)
    ensures forall m: nat :: Ended(c, sect, m) ==> Open(c, sect, UNKNOWN_SIZE) == Ok(Held(c, sect, m))
  {
    forall m: nat | Ended(c, sect, m) ensures Open(c, sect, UNKNOWN_SIZE) == Ok(Held(c, sect, m)) {
      EndedOpens(c, sect, m);
    }
    if Open(c, sect, UNKNOWN_SIZE).Ok? {
      OpenedEnds(c, sect, UNKNOWN_SIZE);
    }
  }

  lemma KnownWalked(c: Container, sect: u32, size: nat, m: nat)
    requires c.sectorSize > 0 && size != UNKNOWN_SIZE && m == CeilDiv(size, c.sectorSize)
    requires Ended(c, sect, m)
    ensures Open(c, sect, size)
         == if size <= |Held(c, sect, m)| then Ok(Held(c, sect, m)[..size]) else Err(ShorterThanDeclared)
  {
    WalkEnded(c, sect, m, m, false);
    NoSectors(c.sectorSize);
  }

  /**
   A stream of known size opens exactly when its chain has ceil(size / sector size) sectors, ends there,
   and they are readable and hold at least so many bytes; then it is what they hold, cut to the size.
   */
  lemma OpenKnownExactly(c: Container, sect: u32, size: nat)
    requires c.sectorSize > 0 && size != UNKNOWN_SIZE
    ensures var m := CeilDiv(size, c.sectorSize);
            && (Open(c, sect, size).Ok? <==> Ended(c, sect, m) && size <= |Held(c, sect, m)|)
            && (Open(c, sect, size).Ok? ==> Open(c, sect, size).value == Held(c, sect, m)[..size])
  {
    var m := CeilDiv(size, c.sectorSize);
    if Ended(c, sect, m) {
      KnownWalked(c, sect, size, m);
    }
    if Open(c, sect, size).Ok? {
      OpenedEnds(c, sect, size);
    }
  }
}
