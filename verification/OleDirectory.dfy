/**
 The directory of an OLE compound file ([MS-CFB] section 2.6.4), as bin/office2john.py loads it at a
 strictness that raises on incorrect entries: left, right and child links of an untrusted file become a
 tree of storages, which is then listed and searched. Entries are named by their index (sid).
 */
module OleDirectory {
  import opened Wrappers

  const NOSTREAM := 0xFFFFFFFF

  const STGTY_EMPTY := 0
  const STGTY_STORAGE := 1
  const STGTY_STREAM := 2
  const STGTY_ROOT := 5

  const DEFECT_UNSURE := 10
  const DEFECT_POTENTIAL := 20
  const DEFECT_INCORRECT := 30

  /** A decoded directory record. */
  datatype Record = Record(
    name: string, nameLength: nat, entryType: nat, left: nat, right: nat, child: nat,
    isectStart: nat, sizeLow: nat, sizeHigh: nat)

  /** The records, Python's str.lower, the settings of the file object, and the streams that the header names. */
  datatype Source = Source(
    records: seq<Record>, lower: string -> string, sectorSize: nat, miniSectorCutoff: nat, level: int,
    headerStreams: set<nat>)

  datatype Error =
    | IndexOutOfRange
    | DoubleReference
    | BadRecord
    | StreamReferencedTwice
    | DuplicateName
    | ReferencedTwice
    | NotStreamNorStorage
    | FileNotFound

  /**
   rank: the entries loaded, numbered in the order they were loaded. owner: the entries whose `used` flag
   is set, with the storage that they were put into. streams: the two lists of used first sectors, with
   the entry that uses each, or None for a stream that the header names.
   */
  datatype Dir = Dir(rank: map<nat, nat>, kids: map<nat, seq<nat>>, owner: map<nat, nat>, streams: Streams)

  /** First sector in the FAT, or in the MiniFAT. */
  datatype Start = InFat(sector: nat) | InMiniFat(sector: nat)

  type Streams = map<Start, Option<nat>>

  function Empty(src: Source): Dir {
    Dir(map[], map[], map[], map s | s in src.headerStreams :: InFat(s) := None)
  }

  function Sids(n: nat): (r: set<nat>)
    ensures forall i: nat :: i in r <==> i < n
  {
    if n == 0 then {} else Sids(n - 1) + {n - 1}
  }

  ghost function Unloaded(src: Source, d: Dir): set<nat> {
    Sids(|src.records|) - d.rank.Keys
  }

  function SizeOf(src: Source, r: Record): nat {
    if src.sectorSize == 512 then r.sizeLow else r.sizeLow + 0x1_0000_0000 * r.sizeHigh
  }

  /** Whether the constructor of the entry raises before it looks at the stream. */
  predicate Defective(src: Source, sid: nat, r: Record) {
    || r.entryType !in {STGTY_ROOT, STGTY_STORAGE, STGTY_STREAM, STGTY_EMPTY}
    || (r.entryType == STGTY_ROOT <==> sid != 0)
    || r.nameLength > 64
    || (src.sectorSize == 512 && r.sizeHigh != 0 && r.sizeHigh != 0xFFFFFFFF && DEFECT_UNSURE >= src.level)
    || (r.entryType == STGTY_STORAGE && SizeOf(src, r) != 0 && DEFECT_POTENTIAL >= src.level)
  }

  /** Where the entry's stream begins, if it has one. */
  function StartOf(src: Source, rec: Record): Option<Start> {
    if rec.entryType !in {STGTY_ROOT, STGTY_STREAM} || SizeOf(src, rec) == 0 then None
    else if SizeOf(src, rec) < src.miniSectorCutoff && rec.entryType == STGTY_STREAM then
      Some(InMiniFat(rec.isectStart))
    else if rec.isectStart in {0xFFFFFFFC, 0xFFFFFFFD, 0xFFFFFFFE, 0xFFFFFFFF} then None
    else Some(InFat(rec.isectStart))
  }

  /** _check_duplicate_stream: a stream may be referenced once in each table. */
  function Mark(streams: Streams, start: Option<Start>, sid: nat): Result<Streams, Error> {
    if start.None? then Ok(streams)
    else if start.value in streams then Err(StreamReferencedTwice)
    else Ok(streams[start.value := Some(sid)])
  }

  /** A newly loaded entry, before its stream is checked. */
  function Register(d: Dir, sid: nat): Dir {
    d.(rank := d.rank[sid := |d.rank|], kids := d.kids[sid := []])
  }

  /** Loading an entry that was not loaded before. */
  function Load(src: Source, d: Dir, sid: nat): Result<Dir, Error>
    requires sid < |src.records| && sid !in d.rank
  {
    if Defective(src, sid, src.records[sid]) then Err(BadRecord)
    else
      match Mark(d.streams, StartOf(src, src.records[sid]), sid)
      case Err(e) => Err(e)
      case Ok(streams) => Ok(Register(d, sid).(streams := streams))
  }

  function NameOf(src: Source, sid: nat): string {
    if sid < |src.records| then src.records[sid].name else ""
  }

  function LowerName(src: Source, sid: nat): string {
    src.lower(NameOf(src, sid))
  }

  function KidsOf(d: Dir, sid: nat): seq<nat> {
    if sid in d.kids then d.kids[sid] else []
  }

  predicate NameTaken(src: Source, d: Dir, storage: nat, child: nat) {
    exists i :: 0 <= i < |KidsOf(d, storage)| && LowerName(src, KidsOf(d, storage)[i]) == LowerName(src, child)
  }

  function AddKid(d: Dir, storage: nat, child: nat): Dir {
    d.(kids := d.kids[storage := KidsOf(d, storage) + [child]], owner := d.owner[child := storage])
  }

  /** The code-point order on names. */
  predicate NameLess(a: string, b: string) {
    b != "" && (a == "" || a[0] < b[0] || (a[0] == b[0] && NameLess(a[1..], b[1..])))
  }

  function Insert(src: Source, k: nat, ks: seq<nat>): seq<nat> {
    if ks == [] || !NameLess(NameOf(src, ks[0]), NameOf(src, k)) then [k] + ks
    else [ks[0]] + Insert(src, k, ks[1..])
  }

  /** kids.sort(): by name. */
  function SortKids(src: Source, ks: seq<nat>): seq<nat> {
    if ks == [] then [] else Insert(src, ks[0], SortKids(src, ks[1..]))
  }

  /** append_kids: the entries below a tree node go into a storage, left to right, each with its own subtree. */
  function AppendKids(src: Source, d: Dir, storage: nat, child: nat): (r: Result<Dir, Error>)
    ensures r.Ok? ==> d.rank.Keys <= r.value.rank.Keys
    decreases Unloaded(src, d), 1
  {
    if child == NOSTREAM then Ok(d)
    else if child >= |src.records| then Err(IndexOutOfRange)
    else if child in d.rank then Err(DoubleReference)
    else
      match Load(src, d, child)
      case Err(e) => Err(e)
      case Ok(d1) =>
        assert child in Unloaded(src, d) && child !in Unloaded(src, d1);
        match AppendKids(src, d1, storage, src.records[child].left)
        case Err(e) => Err(e)
        case Ok(d2) =>
          assert child !in Unloaded(src, d2);
          if NameTaken(src, d2, storage, child) then Err(DuplicateName)
          else if child in d2.owner then Err(ReferencedTwice)
          else
            match AppendKids(src, AddKid(d2, storage, child), storage, src.records[child].right)
            case Err(e) => Err(e)
            case Ok(d3) =>
              assert child !in Unloaded(src, d3);
              BuildStorageTree(src, d3, child)
  }

  /** build_storage_tree: the entries of a storage, sorted by name. */
  function BuildStorageTree(src: Source, d: Dir, storage: nat): (r: Result<Dir, Error>)
    ensures r.Ok? ==> d.rank.Keys <= r.value.rank.Keys
    decreases Unloaded(src, d), 2
  {
    if storage >= |src.records| || src.records[storage].child == NOSTREAM then Ok(d)
    else
      match AppendKids(src, d, storage, src.records[storage].child)
      case Err(e) => Err(e)
      case Ok(d') => Ok(d'.(kids := d'.kids[storage := SortKids(src, KidsOf(d', storage))]))
  }

  /** loaddirectory: the root, then everything below it. */
  function LoadDirectory(src: Source): Result<Dir, Error> {
    if |src.records| == 0 then Err(IndexOutOfRange)
    else
      match Load(src, Empty(src), 0)
      case Err(e) => Err(e)
      case Ok(d) => BuildStorageTree(src, d, 0)
  }

  // What every loaded directory satisfies.

  /** Entries loaded but not in a storage yet. */
  ghost function Pending(d: Dir): set<nat> {
    d.rank.Keys - d.owner.Keys
  }

  /** Loaded entries have records; what is in a storage was loaded after it. */
  ghost predicate Ranked(src: Source, d: Dir) {
    && (forall k :: k in d.rank ==> k < |src.records| && d.rank[k] < |d.rank|)
    && d.kids.Keys == d.rank.Keys
    && d.owner.Keys <= d.rank.Keys
    && (forall k :: k in d.owner ==> d.owner[k] in d.rank && d.rank[d.owner[k]] < d.rank[k])
  }

  /** An entry is in a storage exactly when the storage is its owner. */
  ghost predicate Owned(d: Dir) {
    forall p, k :: p in d.kids ==> (k in d.kids[p] <==> k in d.owner && d.owner[k] == p)
  }

  ghost predicate DistinctNames(src: Source, ks: seq<nat>) {
    forall i, j :: 0 <= i < j < |ks| ==> LowerName(src, ks[i]) != LowerName(src, ks[j])
  }

  ghost predicate UniqueNames(src: Source, d: Dir) {
    forall p :: p in d.kids ==> DistinctNames(src, d.kids[p])
  }

  ghost predicate Marked(streams: Streams, start: Option<Start>, sid: nat) {
    start.Some? ==> start.value in streams && streams[start.value] == Some(sid)
  }

  /** Each stream start is used by the entry that it is marked for. */
  ghost predicate StartsMarked(src: Source, d: Dir) {
    forall a :: a in d.rank && a < |src.records| ==> Marked(d.streams, StartOf(src, src.records[a]), a)
  }

  ghost predicate Invariant(src: Source, d: Dir) {
    Ranked(src, d) && Owned(d) && UniqueNames(src, d) && StartsMarked(src, d)
  }

  /** Later in the same load: entries stay loaded, with their numbers. */
  ghost predicate Extends(d: Dir, later: Dir) {
    forall k :: k in d.rank ==> k in later.rank && later.rank[k] == d.rank[k]
  }

  lemma RegisterRanked(src: Source, d: Dir, sid: nat)
    requires Ranked(src, d) && sid < |src.records| && sid !in d.rank
    ensures Ranked(src, Register(d, sid)) && Extends(d, Register(d, sid))
  {
  }

  lemma RegisterOwned(src: Source, d: Dir, sid: nat)
    requires Ranked(src, d) && Owned(d) && sid !in d.rank
    ensures Owned(Register(d, sid))
  {
  }

  lemma RegisterNames(src: Source, d: Dir, sid: nat)
    requires UniqueNames(src, d)
    ensures UniqueNames(src, Register(d, sid))
  {
  }

  lemma MarkKeeps(streams: Streams, start: Option<Start>, sid: nat, other: Option<Start>, a: nat)
    requires Mark(streams, start, sid).Ok? && Marked(streams, other, a)
    ensures Marked(Mark(streams, start, sid).value, other, a)
    ensures Marked(Mark(streams, start, sid).value, start, sid)
  {
  }

  lemma LoadMarks(src: Source, d: Dir, sid: nat)
    requires StartsMarked(src, d) && sid < |src.records| && sid !in d.rank && Load(src, d, sid).Ok?
    ensures StartsMarked(src, Load(src, d, sid).value)
  {
    var start := StartOf(src, src.records[sid]);
    var e := Load(src, d, sid).value;
    MarkKeeps(d.streams, start, sid, None, 0);
    forall a | a in d.rank && a < |src.records| ensures Marked(e.streams, StartOf(src, src.records[a]), a) {
      MarkKeeps(d.streams, start, sid, StartOf(src, src.records[a]), a);
    }
  }

  lemma OnlyStreams(src: Source, d: Dir, streams: Streams)
    ensures Ranked(src, d) ==> Ranked(src, d.(streams := streams))
    ensures Owned(d) ==> Owned(d.(streams := streams))
    ensures UniqueNames(src, d) ==> UniqueNames(src, d.(streams := streams))
  {
  }

  /** A new entry, with whatever became of the list of stream starts. */
  ghost predicate Registers(d: Dir, sid: nat, after: Dir) {
    after == Register(d, sid).(streams := after.streams)
  }

  lemma LoadRegisters(src: Source, d: Dir, sid: nat)
    requires sid < |src.records| && sid !in d.rank && Load(src, d, sid).Ok?
    ensures Registers(d, sid, Load(src, d, sid).value)
  {
  }

  lemma RegisterKeeps(src: Source, d: Dir, sid: nat, after: Dir)
    requires Ranked(src, d) && Owned(d) && UniqueNames(src, d) && sid < |src.records| && sid !in d.rank
    requires Registers(d, sid, after)
    ensures Ranked(src, after) && Owned(after) && UniqueNames(src, after) && Extends(d, after)
    ensures after.rank == d.rank[sid := |d.rank|] && after.owner == d.owner
  {
    RegisterRanked(src, d, sid);
    RegisterOwned(src, d, sid);
    RegisterNames(src, d, sid);
    OnlyStreams(src, Register(d, sid), after.streams);
  }

  lemma LoadKeeps(src: Source, d: Dir, sid: nat)
    requires Invariant(src, d) && sid < |src.records| && sid !in d.rank && Load(src, d, sid).Ok?
    ensures var d1 := Load(src, d, sid).value;
            Invariant(src, d1) && Extends(d, d1) && d1.rank == d.rank[sid := |d.rank|] && d1.owner == d.owner
  {
    LoadMarks(src, d, sid);
    LoadRegisters(src, d, sid);
    RegisterKeeps(src, d, sid, Load(src, d, sid).value);
  }

  lemma AddKeepsOwned(d: Dir, storage: nat, child: nat)
    requires Owned(d) && d.kids.Keys == d.rank.Keys && storage in d.rank && child !in d.owner
    ensures Owned(AddKid(d, storage, child))
  {
    var e := AddKid(d, storage, child);
    forall p, k | p in e.kids ensures k in e.kids[p] <==> k in e.owner && e.owner[k] == p {
      assert k in d.kids[p] <==> k in d.owner && d.owner[k] == p;
    }
  }

  lemma AddKeepsNames(src: Source, d: Dir, storage: nat, child: nat)
    requires UniqueNames(src, d) && storage in d.kids && !NameTaken(src, d, storage, child)
    ensures UniqueNames(src, AddKid(d, storage, child))
  {
  }

  lemma AddKeepsRanked(src: Source, d: Dir, storage: nat, child: nat)
    requires Ranked(src, d) && storage in d.rank && child in d.rank && d.rank[storage] < d.rank[child]
    ensures Ranked(src, AddKid(d, storage, child)) && Extends(d, AddKid(d, storage, child))
    ensures Pending(AddKid(d, storage, child)) == Pending(d) - {child}
  {
  }

  lemma AddKeeps(src: Source, d: Dir, storage: nat, child: nat)
    requires Invariant(src, d) && storage in d.rank && child in d.rank && child !in d.owner
    requires d.rank[storage] < d.rank[child] && !NameTaken(src, d, storage, child)
    ensures Invariant(src, AddKid(d, storage, child))
  {
    AddKeepsRanked(src, d, storage, child);
    AddKeepsOwned(d, storage, child);
    AddKeepsNames(src, d, storage, child);
  }

  lemma {:induction false} InsertKeeps(src: Source, k: nat, ks: seq<nat>)
    requires DistinctNames(src, ks)
    requires forall i :: 0 <= i < |ks| ==> LowerName(src, ks[i]) != LowerName(src, k)
    ensures DistinctNames(src, Insert(src, k, ks))
    ensures forall x :: x in Insert(src, k, ks) <==> x == k || x in ks
  {
    if ks != [] && NameLess(NameOf(src, ks[0]), NameOf(src, k)) {
      InsertKeeps(src, k, ks[1..]);
      var r := Insert(src, k, ks[1..]);
      forall j | 0 <= j < |r| ensures LowerName(src, r[j]) != LowerName(src, ks[0]) {
        assert r[j] in r;
      }
      assert ks == [ks[0]] + ks[1..];
    }
  }

  /** Sorting a list with distinct names only reorders it. */
  lemma {:induction false} SortKeepsNames(src: Source, ks: seq<nat>)
    requires DistinctNames(src, ks)
    ensures DistinctNames(src, SortKids(src, ks))
    ensures forall x :: x in SortKids(src, ks) <==> x in ks
  {
    if ks == [] {
    } else {
      SortKeepsNames(src, ks[1..]);
      var r := SortKids(src, ks[1..]);
      forall i | 0 <= i < |r| ensures LowerName(src, r[i]) != LowerName(src, ks[0]) {
        assert r[i] in ks[1..];
      }
      InsertKeeps(src, ks[0], r);
      assert ks == [ks[0]] + ks[1..];
    }
  }

  lemma {:induction false} SortKeeps(src: Source, d: Dir, storage: nat)
    requires Invariant(src, d) && storage in d.rank
    ensures var e := d.(kids := d.kids[storage := SortKids(src, KidsOf(d, storage))]);
            Invariant(src, e) && Extends(d, e) && Pending(e) == Pending(d)
  {
    SortKeepsNames(src, d.kids[storage]);
    ReplaceKids(src, d, storage, SortKids(src, d.kids[storage]));
  }

  /** The kids of a storage may be put in another order. */
  lemma ReplaceKids(src: Source, d: Dir, storage: nat, sorted: seq<nat>)
    requires Invariant(src, d) && storage in d.kids
    requires DistinctNames(src, sorted) && forall k :: k in sorted <==> k in d.kids[storage]
    ensures var e := d.(kids := d.kids[storage := sorted]);
            Ranked(src, e) && Owned(e) && UniqueNames(src, e) && StartsMarked(src, e)
            && Extends(d, e) && Pending(e) == Pending(d)
  {
    ReplacedOwned(d, storage, sorted);
    var e := d.(kids := d.kids[storage := sorted]);
    assert e.kids.Keys == d.kids.Keys;
  }

  lemma ReplacedOwned(d: Dir, storage: nat, sorted: seq<nat>)
    requires Owned(d) && storage in d.kids && forall k :: k in sorted <==> k in d.kids[storage]
    ensures Owned(d.(kids := d.kids[storage := sorted]))
  {
    var e := d.(kids := d.kids[storage := sorted]);
    forall p, k | p in e.kids ensures k in e.kids[p] <==> k in e.owner && e.owner[k] == p {
      assert k in d.kids[p] <==> k in d.owner && d.owner[k] == p;
    }
  }

  lemma ExtendsTransitive(a: Dir, b: Dir, c: Dir)
    requires Extends(a, b) && Extends(b, c)
    ensures Extends(a, c)
  {
  }

  /** The entry itself goes into the storage after its left subtree: it was loaded, and is in no storage yet. */
  lemma AfterLeft(src: Source, d: Dir, d1: Dir, d2: Dir, storage: nat, child: nat)
    requires Invariant(src, d) && storage in d.rank && child !in d.rank
    requires d1.rank == d.rank[child := |d.rank|] && d1.owner == d.owner
    requires Invariant(src, d2) && Extends(d1, d2) && Pending(d2) == Pending(d1)
    ensures child !in d2.owner && storage in d2.rank
    ensures !NameTaken(src, d2, storage, child) ==>
              && Invariant(src, AddKid(d2, storage, child)) && Extends(d2, AddKid(d2, storage, child))
              && Pending(AddKid(d2, storage, child)) == Pending(d)
  {
    assert child in Pending(d1) && Pending(d1) == Pending(d) + {child};
    assert storage in d1.rank && d2.rank[storage] == d.rank[storage];
    assert child in d1.rank && d2.rank[child] == |d.rank|;
    if !NameTaken(src, d2, storage, child) {
      AddKeeps(src, d2, storage, child);
      AddKeepsRanked(src, d2, storage, child);
    }
  }

  /** Filling a storage keeps the directory in order and leaves nothing loaded that is in no storage. */
  lemma {:induction false} AppendKidsKeeps(src: Source, d: Dir, storage: nat, child: nat)
    requires Invariant(src, d) && storage in d.rank && AppendKids(src, d, storage, child).Ok?
    ensures Invariant(src, AppendKids(src, d, storage, child).value)
    ensures Extends(d, AppendKids(src, d, storage, child).value)
    ensures Pending(AppendKids(src, d, storage, child).value) == Pending(d)
    decreases Unloaded(src, d), 1
  {
    if child != NOSTREAM {
      LoadKeeps(src, d, child);
      var d1 := Load(src, d, child).value;
      assert child in Unloaded(src, d) && child !in Unloaded(src, d1);
      AppendKidsKeeps(src, d1, storage, src.records[child].left);
      var d2 := AppendKids(src, d1, storage, src.records[child].left).value;
      assert child !in Unloaded(src, d2);
      AfterLeft(src, d, d1, d2, storage, child);
      ExtendsTransitive(d, d1, d2);
      var d3 := AddKid(d2, storage, child);
      ExtendsTransitive(d, d2, d3);
      AppendKidsKeeps(src, d3, storage, src.records[child].right);
      var d4 := AppendKids(src, d3, storage, src.records[child].right).value;
      assert child !in Unloaded(src, d4);
      ExtendsTransitive(d, d3, d4);
      BuildStorageTreeKeeps(src, d4, child);
      ExtendsTransitive(d, d4, BuildStorageTree(src, d4, child).value);
    }
  }

  lemma {:induction false} BuildStorageTreeKeeps(src: Source, d: Dir, storage: nat)
    requires Invariant(src, d) && storage in d.rank && BuildStorageTree(src, d, storage).Ok?
    ensures Invariant(src, BuildStorageTree(src, d, storage).value)
    ensures Extends(d, BuildStorageTree(src, d, storage).value)
    ensures Pending(BuildStorageTree(src, d, storage).value) == Pending(d)
    decreases Unloaded(src, d), 2
  {
    if storage < |src.records| && src.records[storage].child != NOSTREAM {
      AppendKidsKeeps(src, d, storage, src.records[storage].child);
      SortKeeps(src, AppendKids(src, d, storage, src.records[storage].child).value, storage);
    }
  }

  lemma EmptyInvariant(src: Source)
    ensures Invariant(src, Empty(src)) && Pending(Empty(src)) == {}
  {
  }

  lemma RootLoaded(src: Source, d: Dir)
    requires |src.records| > 0 && Load(src, Empty(src), 0) == Ok(d)
    ensures Invariant(src, d) && Pending(d) == {0} && 0 in d.rank
  {
    EmptyInvariant(src);
    LoadKeeps(src, Empty(src), 0);
  }

  /** What comes of loading everything, in terms of the invariants: only the root has no storage. */
  lemma LoadedPending(src: Source)
    requires LoadDirectory(src).Ok?
    ensures Invariant(src, LoadDirectory(src).value) && Pending(LoadDirectory(src).value) == {0}
  {
    var d := Load(src, Empty(src), 0).value;
    RootLoaded(src, d);
    BuildStorageTreeKeeps(src, d, 0);
  }

  lemma OwnersOf(d: Dir)
    requires Owned(d) && Pending(d) == {0}
    ensures 0 in d.rank && 0 !in d.owner
    ensures forall k :: k in d.rank && k != 0 ==>
              k in d.owner && forall p :: p in d.kids ==> (k in d.kids[p] <==> p == d.owner[k])
    ensures forall p :: p in d.kids ==> 0 !in d.kids[p]
  {
    assert 0 in Pending(d);
    forall k | k in d.rank && k != 0 ensures k in d.owner {
      assert k !in Pending(d);
    }
  }

  /**
   A directory that loads: every entry but the root is in exactly one storage, a storage is loaded before
   what is in it, sibling names differ even when case is ignored, and no two entries share a stream start.
   */
  lemma LoadedDirectory(src: Source)
    requires LoadDirectory(src).Ok?
    ensures var d := LoadDirectory(src).value;
            && Invariant(src, d) && 0 in d.rank && 0 !in d.owner
            && (forall k :: k in d.rank && k != 0 ==>
                  k in d.owner && forall p :: p in d.kids ==> (k in d.kids[p] <==> p == d.owner[k]))
            && (forall p :: p in d.kids ==> 0 !in d.kids[p])
  {
    LoadedPending(src);
    OwnersOf(LoadDirectory(src).value);
  }

  lemma LoadedStartsDistinct(src: Source, a: nat, b: nat)
    requires LoadDirectory(src).Ok? && a != b
    requires a in LoadDirectory(src).value.rank && b in LoadDirectory(src).value.rank
    ensures a < |src.records| && b < |src.records|
    ensures StartOf(src, src.records[a]).Some? ==> StartOf(src, src.records[a]) != StartOf(src, src.records[b])
  {
    LoadedDirectory(src);
    var d := LoadDirectory(src).value;
    assert Marked(d.streams, StartOf(src, src.records[a]), a) && Marked(d.streams, StartOf(src, src.records[b]), b);
  }

  // Listing and finding.

  /** A path, and the entry that it was made from. */
  type Listed = (seq<string>, nat)

  ghost predicate Listable(src: Source, d: Dir) {
    Ranked(src, d) && Owned(d)
  }

  /** What _list adds for the i-th entry of a storage: the entry, and all that is below it. */
  ghost function ListEntry(src: Source, d: Dir, prefix: seq<string>, node: nat, i: nat, streams: bool, storages: bool)
    : Result<seq<Listed>, Error>
    requires Listable(src, d) && node in d.rank && i < |d.kids[node]|
    decreases |d.rank| - d.rank[node], |d.kids[node]| - i, 0
  {
    var k := d.kids[node][i];
    KidIsLoaded(src, d, node, i);
    var path := prefix + [NameOf(src, k)];
    var type' := src.records[k].entryType;
    if type' == STGTY_STORAGE then
      match ListFrom(src, d, path, k, 0, streams, storages)
      case Err(e) => Err(e)
      case Ok(below) => Ok((if storages then [(path, k)] else []) + below)
    else if type' == STGTY_STREAM then Ok(if streams then [(path, k)] else [])
    else Err(NotStreamNorStorage)
  }

  /** _list: the entries of a storage from its i-th on. */
  ghost function ListFrom(src: Source, d: Dir, prefix: seq<string>, node: nat, i: nat, streams: bool, storages: bool)
    : Result<seq<Listed>, Error>
    requires Listable(src, d) && node in d.rank && i <= |d.kids[node]|
    decreases |d.rank| - d.rank[node], |d.kids[node]| - i, 1
  {
    if i == |d.kids[node]| then Ok([])
    else
      match ListEntry(src, d, prefix, node, i, streams, storages)
      case Err(e) => Err(e)
      case Ok(here) =>
        match ListFrom(src, d, prefix, node, i + 1, streams, storages)
        case Err(e) => Err(e)
        case Ok(more) => Ok(here + more)
  }

  lemma KidIsLoaded(src: Source, d: Dir, node: nat, i: nat)
    requires Listable(src, d) && node in d.rank && i < |d.kids[node]|
    ensures var k := d.kids[node][i]; k in d.rank && k < |src.records| && d.rank[node] < d.rank[k] < |d.rank|
  {
    var k := d.kids[node][i];
    assert k in d.kids[node] && k in d.owner && d.owner[k] == node;
    assert k in d.owner.Keys;
  }

  function FirstMatch(src: Source, ks: seq<nat>, name: string): Option<nat> {
    if ks == [] then None
    else if LowerName(src, ks[0]) == src.lower(name) then Some(ks[0])
    else FirstMatch(src, ks[1..], name)
  }

  /** _find, from a node. */
  function FindFrom(src: Source, d: Dir, node: nat, path: seq<string>): Result<nat, Error>
    decreases path
  {
    if path == [] then Ok(node)
    else
      match FirstMatch(src, KidsOf(d, node), path[0])
      case None => Err(FileNotFound)
      case Some(k) => FindFrom(src, d, k, path[1..])
  }

  lemma {:induction false} FirstMatchIs(src: Source, ks: seq<nat>, i: nat)
    requires DistinctNames(src, ks) && i < |ks|
    ensures FirstMatch(src, ks, NameOf(src, ks[i])) == Some(ks[i])
  {
    if i == 0 {
    } else {
      FirstMatchIs(src, ks[1..], i - 1);
    }
  }

  ghost predicate Found(src: Source, d: Dir, prefix: seq<string>, node: nat, l: Listed) {
    |prefix| < |l.0| && l.0[..|prefix|] == prefix && FindFrom(src, d, node, l.0[|prefix|..]) == Ok(l.1)
  }

  lemma {:induction false} FoundBelow(src: Source, d: Dir, prefix: seq<string>, node: nat, k: nat, l: Listed)
    requires FirstMatch(src, KidsOf(d, node), NameOf(src, k)) == Some(k)
    requires Found(src, d, prefix + [NameOf(src, k)], k, l) || l == (prefix + [NameOf(src, k)], k)
    ensures Found(src, d, prefix, node, l)
  {
    var path := l.0[|prefix|..];
    assert path[0] == NameOf(src, k) by {
      assert l.0[..|prefix| + 1] == prefix + [NameOf(src, k)];
      assert l.0[|prefix|] == l.0[..|prefix| + 1][|prefix|];
    }
    assert path[1..] == l.0[|prefix| + 1..];
    assert l.0[..|prefix|] == l.0[..|prefix| + 1][..|prefix|];
  }

  lemma {:induction false} ListedIsFound(
      src: Source, d: Dir, prefix: seq<string>, node: nat, i: nat, streams: bool, storages: bool, l: Listed)
    requires Listable(src, d) && UniqueNames(src, d) && node in d.rank && i <= |d.kids[node]|
    requires ListFrom(src, d, prefix, node, i, streams, storages).Ok?
    requires l in ListFrom(src, d, prefix, node, i, streams, storages).value
    ensures Found(src, d, prefix, node, l)
    decreases |d.rank| - d.rank[node], |d.kids[node]| - i
  {
    var k := d.kids[node][i];
    KidIsLoaded(src, d, node, i);
    var path := prefix + [NameOf(src, k)];
    FirstMatchIs(src, d.kids[node], i);
    if l in ListFrom(src, d, prefix, node, i + 1, streams, storages).value {
      ListedIsFound(src, d, prefix, node, i + 1, streams, storages, l);
    } else {
      if l != (path, k) {
        ListedIsFound(src, d, path, k, 0, streams, storages, l);
      }
      FoundBelow(src, d, prefix, node, k, l);
    }
  }

  /** listdir of a directory that loads: everything below the root. */
  ghost function Listdir(src: Source, streams: bool, storages: bool): Result<seq<Listed>, Error>
    requires LoadDirectory(src).Ok?
  {
    LoadedDirectory(src);
    ListFrom(src, LoadDirectory(src).value, [], 0, 0, streams, storages)
  }

  /** Looking up any path that listdir gives, as a list of names, finds exactly the entry that was listed. */
  lemma {:induction false} FindListed(src: Source, streams: bool, storages: bool, l: Listed)
    requires LoadDirectory(src).Ok? && 0 in LoadDirectory(src).value.rank
    requires Listdir(src, streams, storages).Ok? && l in Listdir(src, streams, storages).value
    ensures FindFrom(src, LoadDirectory(src).value, 0, l.0) == Ok(l.1)
  {
    LoadedDirectory(src);
    ListedIsFound(src, LoadDirectory(src).value, [], 0, 0, streams, storages, l);
    assert l.0[0..] == l.0;
  }

  function Paths(ls: seq<Listed>): (ps: seq<seq<string>>)
    ensures |ps| == |ls| && forall i :: 0 <= i < |ls| ==> ps[i] == ls[i].0
  {
    if ls == [] then [] else [ls[0].0] + Paths(ls[1..])
  }

  lemma {:induction false} PathsConcat(a: seq<Listed>, b: seq<Listed>)
    ensures Paths(a + b) == Paths(a) + Paths(b)
  {
    if a == [] {
      assert a + b == b;
    } else {
      assert (a + b)[1..] == a[1..] + b;
      PathsConcat(a[1..], b);
    }
  }

  /** A listing, without the entries that the paths were made from. */
  ghost function PathsOf(r: Result<seq<Listed>, Error>): Result<seq<seq<string>>, Error> {
    if r.Ok? then Ok(Paths(r.value)) else Err(r.error)
  }

  /** What one entry adds to the list. */
  lemma ListStep(
      src: Source, d: Dir, prefix: seq<string>, node: nat, i: nat, streams: bool, storages: bool,
      files: seq<seq<string>>)
    requires Listable(src, d) && node in d.rank && i < |d.kids[node]|
    ensures var here := ListEntry(src, d, prefix, node, i, streams, storages);
            Prepend(files, PathsOf(ListFrom(src, d, prefix, node, i, streams, storages)))
            == (if here.Err? then Err(here.error)
                else Prepend(files + Paths(here.value),
                             PathsOf(ListFrom(src, d, prefix, node, i + 1, streams, storages))))
  {
    var here := ListEntry(src, d, prefix, node, i, streams, storages);
    var more := ListFrom(src, d, prefix, node, i + 1, streams, storages);
    if here.Ok? && more.Ok? {
      PathsConcat(here.value, more.value);
      assert files + (Paths(here.value) + Paths(more.value)) == files + Paths(here.value) + Paths(more.value);
    }
  }

  // The directory as the file object fills it in.

  class DirectoryFile {
    const src: Source
    var rank: map<nat, nat>
    var kids: map<nat, seq<nat>>
    var owner: map<nat, nat>
    var streams: Streams

    constructor (src: Source)
      ensures this.src == src && Value() == Empty(src)
    {
      this.src := src;
      rank, kids, owner, streams := map[], map[], map[], map s | s in src.headerStreams :: InFat(s) := None;
    }

    function Value(): Dir
      reads this
    {
      Dir(rank, kids, owner, streams)
    }

    /** _load_direntry, at a level that raises on a double reference. */
    method LoadDirentry(sid: nat) returns (r: Result<(), Error>)
      modifies this
      ensures sid >= |src.records| ==> r == Err(IndexOutOfRange)
      ensures sid < |src.records| && sid in old(rank) ==> r == Err(DoubleReference)
      ensures sid < |src.records| && sid !in old(rank) ==>
                (r.Ok? <==> Load(src, old(Value()), sid).Ok?)
      ensures r.Err? && sid < |src.records| && sid !in old(rank) ==> Load(src, old(Value()), sid) == Err(r.error)
      ensures r.Ok? ==> Load(src, old(Value()), sid) == Ok(Value())
    {
      if sid >= |src.records| {
        return Err(IndexOutOfRange);
      }
      if sid in rank {
        return Err(DoubleReference);
      }
      var rec := src.records[sid];
      if Defective(src, sid, rec) {
        return Err(BadRecord);
      }
      var start := StartOf(src, rec);
      if start.Some? {
        if start.value in streams {
          return Err(StreamReferencedTwice);
        }
        streams := streams[start.value := Some(sid)];
      }
      rank := rank[sid := |rank|];
      kids := kids[sid := []];
      return Ok(());
    }

    /** The entry itself goes into the list and the dictionary of a storage, and is flagged as used. */
    method PutKid(storage: nat, child: nat) returns (r: Result<(), Error>)
      modifies this
      ensures rank == old(rank)
      ensures r == if NameTaken(src, old(Value()), storage, child) then Err(DuplicateName)
                   else if child in old(owner) then Err(ReferencedTwice) else Ok(())
      ensures r.Ok? ==> Value() == AddKid(old(Value()), storage, child)
    {
      if NameTaken(src, Value(), storage, child) {
        return Err(DuplicateName);
      }
      if child in owner {
        return Err(ReferencedTwice);
      }
      kids := kids[storage := KidsOf(Value(), storage) + [child]];
      owner := owner[child := storage];
      return Ok(());
    }

    method AppendChildren(storage: nat, child: nat) returns (r: Result<(), Error>)
      modifies this
      ensures r.Ok? ==> AppendKids(src, old(Value()), storage, child) == Ok(Value())
      ensures r.Err? ==> AppendKids(src, old(Value()), storage, child) == Err(r.error)
      decreases Unloaded(src, Value()), 1
    {
      if child == NOSTREAM {
        return Ok(());
      }
      ghost var d := Value();
      r := LoadDirentry(child);
      if r.Err? {
        return;
      }
      assert child in Unloaded(src, d) && child !in Unloaded(src, Value());
      r := AppendChildren(storage, src.records[child].left);
      if r.Err? {
        return;
      }
      assert child !in Unloaded(src, Value());
      r := PutKid(storage, child);
      if r.Err? {
        return;
      }
      r := AppendChildren(storage, src.records[child].right);
      if r.Err? {
        return;
      }
      assert child !in Unloaded(src, Value());
      r := BuildTree(child);
    }

    method BuildTree(storage: nat) returns (r: Result<(), Error>)
      modifies this
      ensures r.Ok? ==> BuildStorageTree(src, old(Value()), storage) == Ok(Value())
      ensures r.Err? ==> BuildStorageTree(src, old(Value()), storage) == Err(r.error)
      decreases Unloaded(src, Value()), 2
    {
      if storage >= |src.records| || src.records[storage].child == NOSTREAM {
        return Ok(());
      }
      r := AppendChildren(storage, src.records[storage].child);
      if r.Ok? {
        kids := kids[storage := SortKids(src, KidsOf(Value(), storage))];
      }
    }

    /** loaddirectory. */
    method LoadAll() returns (r: Result<(), Error>)
      requires Value() == Empty(src)
      modifies this
      ensures r.Ok? ==> LoadDirectory(src) == Ok(Value())
      ensures r.Err? ==> LoadDirectory(src) == Err(r.error)
    {
      if |src.records| == 0 {
        return Err(IndexOutOfRange);
      }
      r := LoadDirentry(0);
      if r.Ok? {
        r := BuildTree(0);
      }
    }

    /** listdir, from a storage on: the paths of its entries, and of all that is below them. */
    method List(prefix: seq<string>, node: nat, withStreams: bool, withStorages: bool)
      returns (r: Result<seq<seq<string>>, Error>)
      requires Listable(src, Value()) && node in rank
      ensures r == PathsOf(ListFrom(src, Value(), prefix, node, 0, withStreams, withStorages))
      decreases |rank| - rank[node], 1
    {
      ghost var d := Value();
      var files: seq<seq<string>> := [];
      var i := 0;
      ghost var all := PathsOf(ListFrom(src, d, prefix, node, 0, withStreams, withStorages));
      PrependNothing(all);
      while i < |kids[node]|
        invariant i <= |kids[node]|
        invariant all == Prepend(files, PathsOf(ListFrom(src, d, prefix, node, i, withStreams, withStorages)))
      {
        ListStep(src, d, prefix, node, i, withStreams, withStorages, files);
        var here := ListOne(prefix, node, i, withStreams, withStorages);
        if here.Err? {
          return here;
        }
        files := files + here.value;
        i := i + 1;
      }
      assert files + [] == files;
      return Ok(files);
    }

    /** One entry of a storage. */
    method ListOne(prefix: seq<string>, node: nat, i: nat, withStreams: bool, withStorages: bool)
      returns (r: Result<seq<seq<string>>, Error>)
      requires Listable(src, Value()) && node in rank && i < |kids[node]|
      ensures r == PathsOf(ListEntry(src, Value(), prefix, node, i, withStreams, withStorages))
      decreases |rank| - rank[node], 0
    {
      var k := kids[node][i];
      KidIsLoaded(src, Value(), node, i);
      var path := prefix + [NameOf(src, k)];
      var type' := src.records[k].entryType;
      if type' == STGTY_STORAGE {
        r := List(path, k, withStreams, withStorages);
        if r.Ok? {
          ghost var below := ListFrom(src, Value(), path, k, 0, withStreams, withStorages).value;
          PathsConcat(if withStorages then [(path, k)] else [], below);
          assert Paths(if withStorages then [(path, k)] else []) == if withStorages then [path] else [];
          r := Ok((if withStorages then [path] else []) + r.value);
        }
      } else if type' == STGTY_STREAM {
        assert Paths(if withStreams then [(path, k)] else []) == if withStreams then [path] else [];
        r := Ok(if withStreams then [path] else []);
      } else {
        r := Err(NotStreamNorStorage);
      }
    }

    method Find(path: seq<string>) returns (r: Result<nat, Error>)
      ensures r == FindFrom(src, Value(), 0, path)
    {
      var node := 0;
      var i := 0;
      assert path[0..] == path;
      while i < |path|
        invariant i <= |path|
        invariant FindFrom(src, Value(), 0, path) == FindFrom(src, Value(), node, path[i..])
      {
        assert path[i..][1..] == path[i + 1..];
        var kid := FindKid(KidsOf(Value(), node), path[i]);
        if kid.None? {
          return Err(FileNotFound);
        }
        node := kid.value;
        i := i + 1;
      }
      return Ok(node);
    }

    method FindKid(ks: seq<nat>, name: string) returns (kid: Option<nat>)
      ensures kid == FirstMatch(src, ks, name)
    {
      var i := 0;
      assert ks[0..] == ks;
      while i < |ks|
        invariant i <= |ks| && FirstMatch(src, ks, name) == FirstMatch(src, ks[i..], name)
      {
        assert ks[i..][1..] == ks[i + 1..];
        if LowerName(src, ks[i]) == src.lower(name) {
          return Some(ks[i]);
        }
        i := i + 1;
      }
      return None;
    }
  }
}
