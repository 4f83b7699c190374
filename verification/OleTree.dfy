/**
 What a directory is, told from its records alone: the left, right and child links make a tree, and the
 directory that is loaded is that tree. It also says exactly which records make a directory that loads.
 */
module OleTree {
  import opened Wrappers
  import opened OleDirectory

  // Reading the links.

  datatype Turn = Left | Right

  /** The entry that left and right links lead to from a link. */
  function Reach(src: Source, link: nat, path: seq<Turn>): Option<nat>
    decreases path
  {
    if link == NOSTREAM || link >= |src.records| then None
    else if path == [] then Some(link)
    else Reach(src, if path[0] == Left then src.records[link].left else src.records[link].right, path[1..])
  }

  ghost predicate Reached(src: Source, link: nat, k: nat) {
    exists path: seq<Turn> :: Reach(src, link, path) == Some(k)
  }

  datatype Tree = Leaf | Node(sid: nat, left: Tree, right: Tree, child: Tree)

  /** The tree of all links from one link on; there is none where a link leads nowhere or back. */
  predicate Describes(src: Source, link: nat, t: Tree)
    decreases t
  {
    match t
    case Leaf => link == NOSTREAM
    case Node(sid, left, right, child) =>
      && link == sid && sid != NOSTREAM && sid < |src.records|
      && Describes(src, src.records[sid].left, left)
      && Describes(src, src.records[sid].right, right)
      && Describes(src, src.records[sid].child, child)
  }

  /** The siblings, left to right. */
  function Siblings(t: Tree): seq<nat> {
    if t.Leaf? then [] else Siblings(t.left) + [t.sid] + Siblings(t.right)
  }

  /** All entries, in the order they are loaded. */
  function Entries(t: Tree): seq<nat> {
    if t.Leaf? then [] else [t.sid] + Entries(t.left) + Entries(t.right) + Entries(t.child)
  }

  lemma {:induction false} DescribesOnce(src: Source, link: nat, t: Tree, u: Tree)
    requires Describes(src, link, t) && Describes(src, link, u)
    ensures t == u
    decreases t
  {
    if t.Leaf? || u.Leaf? {
    } else {
      DescribesOnce(src, src.records[t.sid].left, t.left, u.left);
      DescribesOnce(src, src.records[t.sid].right, t.right, u.right);
      DescribesOnce(src, src.records[t.sid].child, t.child, u.child);
    }
  }

  lemma {:induction false} ReachIsSibling(src: Source, link: nat, t: Tree, path: seq<Turn>, k: nat)
    requires Describes(src, link, t) && Reach(src, link, path) == Some(k)
    ensures k in Siblings(t)
    decreases path
  {
    if path == [] {
    } else if path[0] == Left {
      ReachIsSibling(src, src.records[link].left, t.left, path[1..], k);
    } else {
      ReachIsSibling(src, src.records[link].right, t.right, path[1..], k);
    }
  }

  lemma {:induction false} SiblingIsReached(src: Source, link: nat, t: Tree, k: nat) returns (path: seq<Turn>)
    requires Describes(src, link, t) && k in Siblings(t)
    ensures Reach(src, link, path) == Some(k)
    decreases t
  {
    if k == t.sid {
      path := [];
    } else if k in Siblings(t.left) {
      var rest := SiblingIsReached(src, src.records[link].left, t.left, k);
      path := [Left] + rest;
      assert path[1..] == rest;
    } else {
      var rest := SiblingIsReached(src, src.records[link].right, t.right, k);
      path := [Right] + rest;
      assert path[1..] == rest;
    }
  }

  /** The siblings are what left and right links reach. */
  lemma {:induction false} ReachedExactly(src: Source, link: nat, t: Tree, k: nat)
    requires Describes(src, link, t)
    ensures Reached(src, link, k) <==> k in Siblings(t)
  {
    if path: seq<Turn> :| Reach(src, link, path) == Some(k) {
      ReachIsSibling(src, link, t, path, k);
    }
    if k in Siblings(t) {
      var path := SiblingIsReached(src, link, t, k);
      assert Reach(src, link, path) == Some(k);
    }
  }

  // What loading makes of a tree.

  /** The names of siblings differ, in this storage and in every one below it. */
  ghost predicate NamesApart(src: Source, t: Tree) {
    t.Leaf? || (DistinctNames(src, Siblings(t.child)) && NamesApart(src, t.left) && NamesApart(src, t.right)
                && NamesApart(src, t.child))
  }

  ghost predicate Distinct(ks: seq<nat>) {
    forall i, j :: 0 <= i < j < |ks| ==> ks[i] != ks[j]
  }

  /** New entries, all different, and sound by themselves. */
  ghost predicate FreshEntries(src: Source, d: Dir, ks: seq<nat>) {
    && Distinct(ks)
    && forall k :: k in ks ==> k !in d.rank && k < |src.records| && !Defective(src, k, src.records[k])
  }

  /** The entries below a storage are in it, sorted by name. */
  ghost predicate Filled(src: Source, d: Dir, p: nat) {
    p < |src.records| &&
    exists c: Tree :: Describes(src, src.records[p].child, c) && KidsOf(d, p) == SortKids(src, Siblings(c))
  }

  /** Later in the same load, a storage that is not being filled stays as it is. */
  ghost predicate KeepsKids(d: Dir, e: Dir, but: nat) {
    forall p :: p in d.rank && p != but ==> KidsOf(e, p) == KidsOf(d, p)
  }

  ghost predicate Loads(d: Dir, e: Dir, ks: seq<nat>) {
    forall k :: k in e.rank <==> k in d.rank || k in ks
  }

  /** Marked stream starts stay marked, and new ones belong to new entries. */
  ghost predicate MarksStarts(src: Source, d: Dir, e: Dir, ks: seq<nat>) {
    && (forall x :: x in d.streams ==> x in e.streams && e.streams[x] == d.streams[x])
    && (forall x :: x in e.streams && x !in d.streams ==>
          exists k :: k in ks && k < |src.records| && StartOf(src, src.records[k]) == Some(x))
  }

  ghost predicate AllFilled(src: Source, d: Dir, ks: seq<nat>) {
    forall p :: p in ks ==> Filled(src, d, p)
  }

  /** What one walk does: the entries of a tree are loaded, and the storages among them filled. */
  ghost predicate Walked(src: Source, d: Dir, storage: nat, ks: seq<nat>, e: Dir) {
    && FreshEntries(src, d, ks) && Loads(d, e, ks) && MarksStarts(src, d, e, ks)
    && KeepsKids(d, e, storage) && AllFilled(src, e, ks)
  }

  lemma LoadWalks(src: Source, d: Dir, sid: nat)
    requires sid < |src.records| && sid !in d.rank && Load(src, d, sid).Ok? && d.kids.Keys == d.rank.Keys
    ensures var e := Load(src, d, sid).value;
            && FreshEntries(src, d, [sid]) && Loads(d, e, [sid]) && MarksStarts(src, d, e, [sid])
            && KeepsKids(d, e, sid) && KidsOf(e, sid) == []
  {
    var start := StartOf(src, src.records[sid]);
    assert sid in [sid];
    assert Load(src, d, sid).value.streams == Mark(d.streams, start, sid).value;
  }

  lemma FreshBoth(src: Source, d: Dir, a: seq<nat>, e: Dir, b: seq<nat>)
    requires FreshEntries(src, d, a) && Loads(d, e, a) && FreshEntries(src, e, b)
    ensures FreshEntries(src, d, a + b)
  {
    forall i, j | 0 <= i < j < |a + b| ensures (a + b)[i] != (a + b)[j] {
      if i < |a| <= j {
        assert a[i] in e.rank && b[j - |a|] in b;
      }
    }
  }

  lemma LoadsBoth(d: Dir, a: seq<nat>, e: Dir, b: seq<nat>, f: Dir)
    requires Loads(d, e, a) && Loads(e, f, b)
    ensures Loads(d, f, a + b)
  {
  }

  lemma MarksBoth(src: Source, d: Dir, a: seq<nat>, e: Dir, b: seq<nat>, f: Dir)
    requires MarksStarts(src, d, e, a) && MarksStarts(src, e, f, b)
    ensures MarksStarts(src, d, f, a + b)
  {
    forall x | x in f.streams && x !in d.streams
      ensures exists k :: k in a + b && k < |src.records| && StartOf(src, src.records[k]) == Some(x)
    {
      if x in e.streams {
        var k :| k in a && k < |src.records| && StartOf(src, src.records[k]) == Some(x);
        assert k in a + b;
      } else {
        var k :| k in b && k < |src.records| && StartOf(src, src.records[k]) == Some(x);
        assert k in a + b;
      }
    }
  }

  lemma FilledStays(src: Source, d: Dir, storage: nat, ks: seq<nat>, e: Dir)
    requires AllFilled(src, d, ks) && storage !in ks && forall k :: k in ks ==> k in d.rank
    requires KeepsKids(d, e, storage)
    ensures AllFilled(src, e, ks)
  {
    forall p | p in ks ensures Filled(src, e, p) {
      assert Filled(src, d, p);
    }
  }

  /** Two walks into the same storage, one after the other. */
  lemma WalkedBoth(src: Source, d: Dir, storage: nat, a: seq<nat>, e: Dir, b: seq<nat>, f: Dir)
    requires storage in d.rank && Walked(src, d, storage, a, e) && Walked(src, e, storage, b, f)
    ensures Walked(src, d, storage, a + b, f)
  {
    FreshBoth(src, d, a, e, b);
    LoadsBoth(d, a, e, b, f);
    MarksBoth(src, d, a, e, b, f);
    FilledStays(src, e, storage, a, f);
  }

  lemma LeafWalks(src: Source, d: Dir, storage: nat)
    ensures Walked(src, d, storage, [], d) && KidsOf(d, storage) + [] == KidsOf(d, storage)
  {
  }

  lemma AddWalks(src: Source, d: Dir, storage: nat, child: nat)
    ensures Walked(src, d, storage, [], AddKid(d, storage, child))
    ensures KidsOf(AddKid(d, storage, child), storage) == KidsOf(d, storage) + [child]
  {
  }

  lemma SiblingsWalk(src: Source, storage: nat, child: nat, d1: Dir, l: seq<nat>, d2: Dir, r: seq<nat>, d4: Dir)
    requires storage in d1.rank && Walked(src, d1, storage, l, d2)
    requires Walked(src, AddKid(d2, storage, child), storage, r, d4)
    ensures Walked(src, d1, storage, l + r, d4)
  {
    var d3 := AddKid(d2, storage, child);
    AddWalks(src, d2, storage, child);
    WalkedBoth(src, d1, storage, l, d2, [], d3);
    assert l + [] == l;
    WalkedBoth(src, d1, storage, l, d3, r, d4);
  }

  /** An entry is loaded, its siblings around it are walked, and then its own tree. */
  lemma NodeWalks(src: Source, d: Dir, storage: nat, child: nat, d1: Dir, ks: seq<nat>, d4: Dir, c: seq<nat>, d5: Dir)
    requires storage in d.rank && child !in d.rank
    requires FreshEntries(src, d, [child]) && Loads(d, d1, [child]) && MarksStarts(src, d, d1, [child])
    requires KeepsKids(d, d1, child)
    requires Walked(src, d1, storage, ks, d4) && Walked(src, d4, child, c, d5) && Filled(src, d5, child)
    ensures Walked(src, d, storage, [child] + ks + c, d5) && KidsOf(d5, storage) == KidsOf(d4, storage)
  {
    assert child in [child];
    FreshBoth(src, d, [child], d1, ks);
    LoadsBoth(d, [child], d1, ks, d4);
    MarksBoth(src, d, [child], d1, ks, d4);
    FreshBoth(src, d, [child] + ks, d4, c);
    LoadsBoth(d, [child] + ks, d4, c, d5);
    MarksBoth(src, d, [child] + ks, d4, c, d5);
    FilledStays(src, d4, child, ks, d5);
  }

  lemma EntriesAround(first: seq<nat>, left: seq<nat>, right: seq<nat>, child: seq<nat>)
    ensures first + (left + right) + child == first + left + right + child
  {
  }

  lemma NodeSiblings(kids: seq<nat>, left: seq<nat>, child: nat, right: seq<nat>)
    ensures kids + left + [child] + right == kids + (left + [child] + right)
  {
  }

  /** The stages of a walk that succeeds. */
  lemma AppendParts(src: Source, d: Dir, storage: nat, child: nat) returns (d1: Dir, d2: Dir, d4: Dir)
    requires Invariant(src, d) && storage in d.rank && AppendKids(src, d, storage, child).Ok? && child != NOSTREAM
    ensures child < |src.records| && child !in d.rank && Load(src, d, child) == Ok(d1)
    ensures AppendKids(src, d1, storage, src.records[child].left) == Ok(d2)
    ensures AppendKids(src, AddKid(d2, storage, child), storage, src.records[child].right) == Ok(d4)
    ensures BuildStorageTree(src, d4, child) == AppendKids(src, d, storage, child)
    ensures Invariant(src, d1) && Invariant(src, AddKid(d2, storage, child)) && Invariant(src, d4)
    ensures storage in d1.rank && storage in d2.rank && child in d1.rank && child in d2.rank && child in d4.rank
    ensures Unloaded(src, d1) < Unloaded(src, d) && Unloaded(src, AddKid(d2, storage, child)) < Unloaded(src, d)
    ensures Unloaded(src, d4) < Unloaded(src, d)
  {
    d1 := Load(src, d, child).value;
    LoadKeeps(src, d, child);
    AppendKidsKeeps(src, d1, storage, src.records[child].left);
    d2 := AppendKids(src, d1, storage, src.records[child].left).value;
    AfterLeft(src, d, d1, d2, storage, child);
    AppendKidsKeeps(src, AddKid(d2, storage, child), storage, src.records[child].right);
    d4 := AppendKids(src, AddKid(d2, storage, child), storage, src.records[child].right).value;
    assert child in Unloaded(src, d) && child !in Unloaded(src, d1);
  }

  lemma KidsKept(d1: Dir, storage: nat, child: nat, d2: Dir, d4: Dir)
    requires child in d1.rank && child in d2.rank && child != storage
    requires KeepsKids(d1, d2, storage) && KeepsKids(AddKid(d2, storage, child), d4, storage)
    ensures KidsOf(d4, child) == KidsOf(d1, child)
  {
    assert child in AddKid(d2, storage, child).rank;
  }

  lemma SortWalks(src: Source, d: Dir, storage: nat, ks: seq<nat>, e: Dir, sorted: seq<nat>)
    requires storage in d.rank && Walked(src, d, storage, ks, e)
    ensures Walked(src, d, storage, ks, e.(kids := e.kids[storage := sorted]))
  {
    var f := e.(kids := e.kids[storage := sorted]);
    forall p | p in ks ensures Filled(src, f, p) {
      assert Filled(src, e, p) && KidsOf(f, p) == KidsOf(e, p);
    }
  }

  /** A walk that succeeds has found a tree, and its siblings have come into the storage, left to right. */
  lemma {:induction false} AppendWalks(src: Source, d: Dir, storage: nat, child: nat) returns (t: Tree)
    requires Invariant(src, d) && storage in d.rank && AppendKids(src, d, storage, child).Ok?
    ensures Describes(src, child, t) && NamesApart(src, t)
    ensures Walked(src, d, storage, Entries(t), AppendKids(src, d, storage, child).value)
    ensures KidsOf(AppendKids(src, d, storage, child).value, storage) == KidsOf(d, storage) + Siblings(t)
    decreases Unloaded(src, d), 1
  {
    if child == NOSTREAM {
      LeafWalks(src, d, storage);
      t := Leaf;
    } else {
      var d1, d2, d4 := AppendParts(src, d, storage, child);
      var left := AppendWalks(src, d1, storage, src.records[child].left);
      var right := AppendWalks(src, AddKid(d2, storage, child), storage, src.records[child].right);
      LoadWalks(src, d, child);
      KidsKept(d1, storage, child, d2, d4);
      var c := BuildWalks(src, d4, child);
      t := Node(child, left, right, c);
      SiblingsWalk(src, storage, child, d1, Entries(left), d2, Entries(right), d4);
      NodeWalks(src, d, storage, child, d1, Entries(left) + Entries(right), d4, Entries(c),
                BuildStorageTree(src, d4, child).value);
      EntriesAround([child], Entries(left), Entries(right), Entries(c));
      AddWalks(src, d2, storage, child);
      NodeSiblings(KidsOf(d, storage), Siblings(left), child, Siblings(right));
    }
  }

  /** Building an empty storage: its tree, and its entries sorted by name. */
  lemma {:induction false} BuildWalks(src: Source, d: Dir, storage: nat) returns (c: Tree)
    requires Invariant(src, d) && storage in d.rank && storage < |src.records| && KidsOf(d, storage) == []
    requires BuildStorageTree(src, d, storage).Ok?
    ensures Describes(src, src.records[storage].child, c) && NamesApart(src, c) && DistinctNames(src, Siblings(c))
    ensures Walked(src, d, storage, Entries(c), BuildStorageTree(src, d, storage).value)
    ensures KidsOf(BuildStorageTree(src, d, storage).value, storage) == SortKids(src, Siblings(c))
    decreases Unloaded(src, d), 2
  {
    if src.records[storage].child == NOSTREAM {
      LeafWalks(src, d, storage);
      c := Leaf;
    } else {
      c := AppendWalks(src, d, storage, src.records[storage].child);
      AppendKidsKeeps(src, d, storage, src.records[storage].child);
      var e := AppendKids(src, d, storage, src.records[storage].child).value;
      assert [] + Siblings(c) == Siblings(c) && storage in e.kids;
      SortWalks(src, d, storage, Entries(c), e, SortKids(src, Siblings(c)));
    }
  }

  // The order of names.

  lemma {:induction false} NameTransitive(a: string, b: string, c: string)
    requires NameLess(a, b) && NameLess(b, c)
    ensures NameLess(a, c)
  {
    if a != "" && a[0] == b[0] == c[0] {
      NameTransitive(a[1..], b[1..], c[1..]);
    }
  }

  lemma {:induction false} NameTotal(a: string, b: string)
    requires a != b
    ensures NameLess(a, b) || NameLess(b, a)
  {
    if a != "" && b != "" && a[0] == b[0] {
      assert a == [a[0]] + a[1..] && b == [b[0]] + b[1..];
      NameTotal(a[1..], b[1..]);
    }
  }

  ghost predicate Ascending(src: Source, ks: seq<nat>) {
    forall i, j :: 0 <= i < j < |ks| ==> NameLess(NameOf(src, ks[i]), NameOf(src, ks[j]))
  }

  lemma {:induction false} InsertAscends(src: Source, k: nat, ks: seq<nat>)
    requires Ascending(src, ks) && forall x :: x in ks ==> NameOf(src, x) != NameOf(src, k)
    ensures Ascending(src, Insert(src, k, ks)) && forall x :: x in Insert(src, k, ks) <==> x == k || x in ks
  {
    if ks == [] {
    } else if NameLess(NameOf(src, ks[0]), NameOf(src, k)) {
      var rest := Insert(src, k, ks[1..]);
      InsertAscends(src, k, ks[1..]);
      assert ks == [ks[0]] + ks[1..];
      forall j | 0 <= j < |rest| ensures NameLess(NameOf(src, ks[0]), NameOf(src, rest[j])) {
        assert rest[j] in rest;
      }
    } else {
      NameTotal(NameOf(src, ks[0]), NameOf(src, k));
      forall j | 0 <= j < |ks| ensures NameLess(NameOf(src, k), NameOf(src, ks[j])) {
        if j > 0 {
          NameTransitive(NameOf(src, k), NameOf(src, ks[0]), NameOf(src, ks[j]));
        }
      }
    }
  }

  lemma {:induction false} SortAscends(src: Source, ks: seq<nat>)
    requires DistinctNames(src, ks)
    ensures Ascending(src, SortKids(src, ks)) && forall x :: x in SortKids(src, ks) <==> x in ks
  {
    if ks == [] {
    } else {
      SortAscends(src, ks[1..]);
      assert ks == [ks[0]] + ks[1..];
      forall x | x in SortKids(src, ks[1..]) ensures NameOf(src, x) != NameOf(src, ks[0]) {
        assert x in ks[1..];
      }
      InsertAscends(src, ks[0], SortKids(src, ks[1..]));
    }
  }

  // The directory that is loaded.

  lemma RootWalks(src: Source) returns (t: Tree)
    requires LoadDirectory(src).Ok?
    ensures |src.records| > 0
    ensures Describes(src, src.records[0].child, t) && NamesApart(src, t) && DistinctNames(src, Siblings(t))
    ensures var d := LoadDirectory(src).value; var ks := [0] + Entries(t);
            && FreshEntries(src, Empty(src), ks) && Loads(Empty(src), d, ks) && MarksStarts(src, Empty(src), d, ks)
            && AllFilled(src, d, ks)
  {
    var d0, d := Load(src, Empty(src), 0).value, LoadDirectory(src).value;
    RootLoaded(src, d0);
    LoadWalks(src, Empty(src), 0);
    t := BuildWalks(src, d0, 0);
    assert 0 in d0.rank;
    FreshBoth(src, Empty(src), [0], d0, Entries(t));
    LoadsBoth(Empty(src), [0], d0, Entries(t), d);
    MarksBoth(src, Empty(src), [0], d0, Entries(t), d);
  }

  /**
   A directory that loads: what a storage holds is exactly what left and right links reach from its child
   link, in the order of the names.
   */
  lemma KidsExactly(src: Source, p: nat)
    requires LoadDirectory(src).Ok? && p in LoadDirectory(src).value.rank
    ensures p < |src.records| && p in LoadDirectory(src).value.kids
    ensures var kids := LoadDirectory(src).value.kids[p];
            && (forall k :: k in kids <==> Reached(src, src.records[p].child, k))
            && Ascending(src, kids)
  {
    var d := LoadDirectory(src).value;
    var t := RootWalks(src);
    LoadedDirectory(src);
    assert p in [0] + Entries(t) && Filled(src, d, p);
    var c: Tree :| Describes(src, src.records[p].child, c) && KidsOf(d, p) == SortKids(src, Siblings(c));
    NamesBelow(src, t, p, c);
    SortAscends(src, Siblings(c));
    forall k ensures k in d.kids[p] <==> Reached(src, src.records[p].child, k) {
      ReachedExactly(src, src.records[p].child, c, k);
    }
  }

  lemma {:induction false} NamesInside(src: Source, link: nat, t: Tree, p: nat, c: Tree)
    requires Describes(src, link, t) && NamesApart(src, t) && p in Entries(t) && p < |src.records|
    requires Describes(src, src.records[p].child, c)
    ensures DistinctNames(src, Siblings(c))
    decreases t
  {
    if p == t.sid {
      DescribesOnce(src, src.records[p].child, c, t.child);
    } else if p in Entries(t.left) {
      NamesInside(src, src.records[t.sid].left, t.left, p, c);
    } else if p in Entries(t.right) {
      NamesInside(src, src.records[t.sid].right, t.right, p, c);
    } else {
      NamesInside(src, src.records[t.sid].child, t.child, p, c);
    }
  }

  lemma {:induction false} NamesBelow(src: Source, t: Tree, p: nat, c: Tree)
    requires |src.records| > 0 && Describes(src, src.records[0].child, t) && NamesApart(src, t)
    requires DistinctNames(src, Siblings(t)) && p in [0] + Entries(t) && p < |src.records|
    requires Describes(src, src.records[p].child, c)
    ensures DistinctNames(src, Siblings(c))
  {
    if p == 0 {
      DescribesOnce(src, src.records[0].child, c, t);
    } else {
      NamesInside(src, src.records[0].child, t, p, c);
    }
  }

  // Which directories load.

  ghost predicate StartsApart(src: Source, ks: seq<nat>) {
    forall i, j :: 0 <= i < j < |ks| && ks[i] < |src.records| && ks[j] < |src.records|
                   && StartOf(src, src.records[ks[i]]).Some? ==>
      StartOf(src, src.records[ks[i]]) != StartOf(src, src.records[ks[j]])
  }

  ghost predicate StartsFree(src: Source, streams: Streams, ks: seq<nat>) {
    forall k :: k in ks && k < |src.records| && StartOf(src, src.records[k]).Some? ==>
      StartOf(src, src.records[k]).value !in streams
  }

  ghost predicate CanLoad(src: Source, d: Dir, ks: seq<nat>) {
    FreshEntries(src, d, ks) && StartsApart(src, ks) && StartsFree(src, d.streams, ks)
  }

  lemma CanLoadFirst(src: Source, d: Dir, a: seq<nat>, b: seq<nat>)
    requires CanLoad(src, d, a + b)
    ensures CanLoad(src, d, a)
  {
    forall i | 0 <= i < |a| ensures a[i] == (a + b)[i] && a[i] in a + b {
    }
  }

  lemma Apart(a: seq<nat>, b: seq<nat>)
    requires Distinct(a + b)
    ensures forall i, j :: 0 <= i < |a| && 0 <= j < |b| ==> a[i] != b[j]
  {
    forall i, j | 0 <= i < |a| && 0 <= j < |b| ensures a[i] != b[j] {
      assert (a + b)[i] == a[i] && (a + b)[|a| + j] == b[j];
    }
  }

  lemma StartsAcross(src: Source, a: seq<nat>, b: seq<nat>, m: nat, k: nat)
    requires StartsApart(src, a + b) && m in a && k in b && m < |src.records| && k < |src.records|
    ensures StartOf(src, src.records[m]).Some? ==> StartOf(src, src.records[m]) != StartOf(src, src.records[k])
  {
    var i, j :| 0 <= i < |a| && a[i] == m && 0 <= j < |b| && b[j] == k;
    assert (a + b)[i] == m && (a + b)[|a| + j] == k;
  }

  lemma StartsRest(src: Source, d: Dir, a: seq<nat>, b: seq<nat>, e: Dir, k: nat)
    requires StartsApart(src, a + b) && StartsFree(src, d.streams, a + b) && MarksStarts(src, d, e, a)
    requires k in b && k < |src.records| && StartOf(src, src.records[k]).Some?
    ensures StartOf(src, src.records[k]).value !in e.streams
  {
    assert k in a + b;
    forall m | m in a && m < |src.records| && StartOf(src, src.records[m]).Some?
      ensures StartOf(src, src.records[m]) != StartOf(src, src.records[k])
    {
      StartsAcross(src, a, b, m, k);
    }
  }

  lemma CanLoadRest(src: Source, d: Dir, a: seq<nat>, b: seq<nat>, e: Dir)
    requires CanLoad(src, d, a + b) && Loads(d, e, a) && MarksStarts(src, d, e, a)
    ensures CanLoad(src, e, b)
  {
    forall i | 0 <= i < |b| ensures b[i] == (a + b)[|a| + i] && b[i] in a + b {
    }
    Apart(a, b);
    forall k | k in b && k < |src.records| && StartOf(src, src.records[k]).Some?
      ensures StartOf(src, src.records[k]).value !in e.streams
    {
      StartsRest(src, d, a, b, e, k);
    }
  }

  lemma NamesFirst(src: Source, a: seq<nat>, b: seq<nat>)
    requires DistinctNames(src, a + b)
    ensures DistinctNames(src, a)
  {
    assert forall i :: 0 <= i < |a| ==> a[i] == (a + b)[i];
  }

  lemma NotTaken(src: Source, d: Dir, storage: nat, child: nat, more: seq<nat>)
    requires DistinctNames(src, KidsOf(d, storage) + [child] + more)
    ensures !NameTaken(src, d, storage, child)
  {
    var all := KidsOf(d, storage) + [child] + more;
    assert all[|KidsOf(d, storage)|] == child;
    assert forall i :: 0 <= i < |KidsOf(d, storage)| ==> KidsOf(d, storage)[i] == all[i];
  }

  /** The entry itself can be loaded, and then everything else can. */
  lemma FirstLoads(src: Source, d: Dir, storage: nat, child: nat, rest: seq<nat>) returns (d1: Dir)
    requires Invariant(src, d) && storage in d.rank && CanLoad(src, d, [child] + rest)
    ensures child < |src.records| && child !in d.rank && Load(src, d, child) == Ok(d1)
    ensures Invariant(src, d1) && CanLoad(src, d1, rest) && storage in d1.rank
    ensures KidsOf(d1, storage) == KidsOf(d, storage) && KidsOf(d1, child) == []
    ensures d1.rank == d.rank[child := |d.rank|] && d1.owner == d.owner
  {
    assert child in [child] + rest;
    d1 := Load(src, d, child).value;
    LoadKeeps(src, d, child);
    LoadWalks(src, d, child);
    CanLoadRest(src, d, [child], rest, d1);
  }

  /** What a walk over a tree gives, once it is known to succeed. */
  lemma WalkOf(src: Source, d: Dir, storage: nat, child: nat, t: Tree) returns (e: Dir)
    requires Invariant(src, d) && storage in d.rank && AppendKids(src, d, storage, child).Ok?
    requires Describes(src, child, t)
    ensures AppendKids(src, d, storage, child) == Ok(e)
    ensures Invariant(src, e) && Extends(d, e) && Pending(e) == Pending(d)
    ensures Walked(src, d, storage, Entries(t), e) && KidsOf(e, storage) == KidsOf(d, storage) + Siblings(t)
  {
    AppendKidsKeeps(src, d, storage, child);
    var u := AppendWalks(src, d, storage, child);
    DescribesOnce(src, child, t, u);
    e := AppendKids(src, d, storage, child).value;
  }

  lemma AddLoads(src: Source, d: Dir, storage: nat, child: nat, ks: seq<nat>)
    requires CanLoad(src, d, ks)
    ensures CanLoad(src, AddKid(d, storage, child), ks)
  {
  }

  /** Ready to walk over a tree: its entries can be loaded, and its siblings put into the storage. */
  ghost predicate Ready(src: Source, d: Dir, storage: nat, t: Tree, rest: seq<nat>) {
    && Invariant(src, d) && storage in d.rank
    && CanLoad(src, d, Entries(t) + rest) && DistinctNames(src, KidsOf(d, storage) + Siblings(t))
  }

  lemma {:induction false} EntriesOf(t: Tree)
    requires t.Node?
    ensures Entries(t) + [] == [t.sid] + (Entries(t.left) + (Entries(t.right) + Entries(t.child)))
  {
  }

  lemma {:induction false} LeftNames(src: Source, kids: seq<nat>, t: Tree)
    requires t.Node? && DistinctNames(src, kids + Siblings(t))
    ensures DistinctNames(src, kids + Siblings(t.left))
  {
    NodeSiblings(kids, Siblings(t.left), t.sid, Siblings(t.right));
    NamesFirst(src, kids + Siblings(t.left) + [t.sid], Siblings(t.right));
    NamesFirst(src, kids + Siblings(t.left), [t.sid]);
  }

  lemma LeftStage(src: Source, d: Dir, storage: nat, child: nat, t: Tree) returns (d1: Dir)
    requires Ready(src, d, storage, t, []) && Describes(src, child, t) && t.Node?
    ensures child < |src.records| && child !in d.rank && Load(src, d, child) == Ok(d1)
    ensures Ready(src, d1, storage, t.left, Entries(t.right) + Entries(t.child))
    ensures KidsOf(d1, storage) == KidsOf(d, storage) && KidsOf(d1, child) == [] && child in d1.rank
    ensures d1.rank == d.rank[child := |d.rank|] && d1.owner == d.owner
  {
    EntriesOf(t);
    d1 := FirstLoads(src, d, storage, child, Entries(t.left) + (Entries(t.right) + Entries(t.child)));
    LeftNames(src, KidsOf(d, storage), t);
  }

  lemma {:induction false} RightStage(src: Source, d: Dir, d1: Dir, d2: Dir, storage: nat, child: nat, t: Tree)
    requires Invariant(src, d) && storage in d.rank && child !in d.rank && t.Node? && t.sid == child
    requires DistinctNames(src, KidsOf(d, storage) + Siblings(t)) && KidsOf(d1, storage) == KidsOf(d, storage)
    requires d1.rank == d.rank[child := |d.rank|] && d1.owner == d.owner
    requires Ready(src, d1, storage, t.left, Entries(t.right) + Entries(t.child))
    requires Invariant(src, d2) && Extends(d1, d2) && Pending(d2) == Pending(d1)
    requires Walked(src, d1, storage, Entries(t.left), d2)
    requires KidsOf(d2, storage) == KidsOf(d1, storage) + Siblings(t.left)
    ensures !NameTaken(src, d2, storage, child) && child !in d2.owner && child in d2.rank
    ensures Ready(src, AddKid(d2, storage, child), storage, t.right, Entries(t.child))
  {
    NodeSiblings(KidsOf(d, storage), Siblings(t.left), child, Siblings(t.right));
    NotTaken(src, d2, storage, child, Siblings(t.right));
    AfterLeft(src, d, d1, d2, storage, child);
    CanLoadRest(src, d1, Entries(t.left), Entries(t.right) + Entries(t.child), d2);
    AddLoads(src, d2, storage, child, Entries(t.right) + Entries(t.child));
    AddWalks(src, d2, storage, child);
  }

  /** A tree of sound entries with distinct names is walked without an error. */
  lemma {:induction false} AppendLoads(src: Source, d: Dir, storage: nat, child: nat, t: Tree)
    requires Ready(src, d, storage, t, []) && Describes(src, child, t) && NamesApart(src, t)
    ensures AppendKids(src, d, storage, child).Ok?
    decreases t, 0
  {
    if t.Node? {
      var d1 := LeftStage(src, d, storage, child, t);
      ReadyAlone(src, d1, storage, t.left, Entries(t.right) + Entries(t.child));
      AppendLoads(src, d1, storage, src.records[child].left, t.left);
      var d2 := WalkOf(src, d1, storage, src.records[child].left, t.left);
      RightStage(src, d, d1, d2, storage, child, t);
      var d3 := AddKid(d2, storage, child);
      ReadyAlone(src, d3, storage, t.right, Entries(t.child));
      AppendLoads(src, d3, storage, src.records[child].right, t.right);
      var d4 := WalkOf(src, d3, storage, src.records[child].right, t.right);
      CanLoadRest(src, d3, Entries(t.right), Entries(t.child), d4);
      KidsKept(d1, storage, child, d2, d4);
      BuildLoads(src, d4, child, t.child);
    }
  }

  lemma ReadyAlone(src: Source, d: Dir, storage: nat, t: Tree, rest: seq<nat>)
    requires Ready(src, d, storage, t, rest)
    ensures Ready(src, d, storage, t, [])
  {
    CanLoadFirst(src, d, Entries(t), rest);
    assert Entries(t) + [] == Entries(t);
  }

  lemma {:induction false} BuildLoads(src: Source, d: Dir, storage: nat, c: Tree)
    requires Invariant(src, d) && storage in d.rank && storage < |src.records| && KidsOf(d, storage) == []
    requires Describes(src, src.records[storage].child, c)
    requires CanLoad(src, d, Entries(c)) && DistinctNames(src, Siblings(c)) && NamesApart(src, c)
    ensures BuildStorageTree(src, d, storage).Ok?
    decreases c, 1
  {
    assert [] + Siblings(c) == Siblings(c) && Entries(c) + [] == Entries(c);
    if c.Node? {
      AppendLoads(src, d, storage, src.records[storage].child, c);
    }
  }

  /**
   Records that make a directory: the links make a tree in which no entry comes twice, its entries are
   sound, their streams start apart from each other and from those of the header, and the names of
   siblings differ.
   */
  ghost predicate Sound(src: Source, t: Tree) {
    && |src.records| > 0 && Describes(src, src.records[0].child, t)
    && CanLoad(src, Empty(src), [0] + Entries(t))
    && DistinctNames(src, Siblings(t)) && NamesApart(src, t)
  }

  lemma SoundLoads(src: Source, t: Tree)
    requires Sound(src, t)
    ensures LoadDirectory(src).Ok?
  {
    assert 0 in [0] + Entries(t);
    var d := Load(src, Empty(src), 0).value;
    RootLoaded(src, d);
    LoadWalks(src, Empty(src), 0);
    CanLoadRest(src, Empty(src), [0], Entries(t), d);
    BuildLoads(src, d, 0, t);
  }

  lemma LoadedStarts(src: Source, ks: seq<nat>)
    requires LoadDirectory(src).Ok? && Distinct(ks)
    requires forall k :: k in ks ==> k in LoadDirectory(src).value.rank
    ensures StartsApart(src, ks)
  {
    forall i, j | 0 <= i < j < |ks| && ks[i] < |src.records| && ks[j] < |src.records|
                  && StartOf(src, src.records[ks[i]]).Some?
      ensures StartOf(src, src.records[ks[i]]) != StartOf(src, src.records[ks[j]])
    {
      assert ks[i] in ks && ks[j] in ks;
      LoadedStartsDistinct(src, ks[i], ks[j]);
    }
  }

  lemma HeaderStartsKept(src: Source, ks: seq<nat>)
    requires LoadDirectory(src).Ok? && MarksStarts(src, Empty(src), LoadDirectory(src).value, ks)
    requires forall k :: k in ks ==> k in LoadDirectory(src).value.rank
    ensures StartsFree(src, Empty(src).streams, ks)
  {
    LoadedDirectory(src);
    var d := LoadDirectory(src).value;
    forall k | k in ks && k < |src.records| && StartOf(src, src.records[k]).Some?
      ensures StartOf(src, src.records[k]).value !in Empty(src).streams
    {
      assert Marked(d.streams, StartOf(src, src.records[k]), k);
    }
  }

  /** A directory loads exactly when its records are sound. */
  lemma LoadsExactly(src: Source)
    ensures LoadDirectory(src).Ok? <==> exists t: Tree :: Sound(src, t)
  {
    if LoadDirectory(src).Ok? {
      var t := RootWalks(src);
      var ks := [0] + Entries(t);
      LoadedStarts(src, ks);
      HeaderStartsKept(src, ks);
      assert Sound(src, t);
    }
    if t: Tree :| Sound(src, t) {
      SoundLoads(src, t);
    }
  }

  // What is loaded, listed and found.

  /** The entry reached by going into one storage after another. */
  function Follow(src: Source, p: nat, steps: seq<seq<Turn>>): Option<nat>
    decreases steps
  {
    if steps == [] then Some(p)
    else if p >= |src.records| then None
    else
      match Reach(src, src.records[p].child, steps[0])
      case None => None
      case Some(k) => Follow(src, k, steps[1..])
  }

  lemma {:induction false} FollowNext(src: Source, p: nat, steps: seq<seq<Turn>>, m: nat, path: seq<Turn>)
    requires Follow(src, p, steps) == Some(m) && m < |src.records|
    ensures Follow(src, p, steps + [path]) == Reach(src, src.records[m].child, path)
    decreases steps
  {
    if steps == [] {
      assert [] + [path] == [path] && [path][1..] == [];
    } else {
      assert (steps + [path])[1..] == steps[1..] + [path];
      FollowNext(src, Reach(src, src.records[p].child, steps[0]).value, steps[1..], m, path);
    }
  }

  lemma KidRanked(src: Source, d: Dir, p: nat, k: nat)
    requires Ranked(src, d) && Owned(d) && p in d.kids && k in d.kids[p]
    ensures k in d.rank && p in d.rank && d.rank[p] < d.rank[k]
  {
    assert k in d.owner.Keys && d.owner[k] == p;
  }

  lemma KidLoaded(src: Source, p: nat, k: nat)
    requires LoadDirectory(src).Ok? && p in LoadDirectory(src).value.rank && p < |src.records|
    requires Reached(src, src.records[p].child, k)
    ensures var d := LoadDirectory(src).value;
            p in d.kids && k in d.kids[p] && k in d.rank && d.rank[p] < d.rank[k]
  {
    KidsExactly(src, p);
    LoadedDirectory(src);
    KidRanked(src, LoadDirectory(src).value, p, k);
  }

  lemma {:induction false} FollowedIsLoaded(src: Source, p: nat, steps: seq<seq<Turn>>, k: nat)
    requires LoadDirectory(src).Ok? && p in LoadDirectory(src).value.rank && Follow(src, p, steps) == Some(k)
    ensures k in LoadDirectory(src).value.rank
    decreases steps
  {
    if steps == [] {
    } else {
      var m := Reach(src, src.records[p].child, steps[0]).value;
      assert Reached(src, src.records[p].child, m);
      KidLoaded(src, p, m);
      FollowedIsLoaded(src, m, steps[1..], k);
    }
  }

  lemma {:induction false} LoadedIsFollowed(src: Source, k: nat) returns (steps: seq<seq<Turn>>)
    requires LoadDirectory(src).Ok? && k in LoadDirectory(src).value.rank
    ensures Follow(src, 0, steps) == Some(k)
    decreases LoadDirectory(src).value.rank[k]
  {
    var d := LoadDirectory(src).value;
    LoadedDirectory(src);
    if k == 0 {
      steps := [];
    } else {
      var p := d.owner[k];
      assert p in d.rank && d.rank[p] < d.rank[k] && k in d.kids[p];
      KidsExactly(src, p);
      var path: seq<Turn> :| Reach(src, src.records[p].child, path) == Some(k);
      var before := LoadedIsFollowed(src, p);
      FollowNext(src, 0, before, p, path);
      steps := before + [path];
    }
  }

  /** The entries loaded are those that the links lead to from the root. */
  lemma {:induction false} LoadedExactly(src: Source, k: nat)
    requires LoadDirectory(src).Ok?
    ensures k in LoadDirectory(src).value.rank <==> exists steps: seq<seq<Turn>> :: Follow(src, 0, steps) == Some(k)
  {
    LoadedDirectory(src);
    if k in LoadDirectory(src).value.rank {
      var steps := LoadedIsFollowed(src, k);
      assert Follow(src, 0, steps) == Some(k);
    }
    if steps: seq<seq<Turn>> :| Follow(src, 0, steps) == Some(k) {
      FollowedIsLoaded(src, 0, steps, k);
    }
  }

  /** Each entry is in the storage before it, and all but the last are storages. */
  ghost predicate Chain(src: Source, node: nat, ks: seq<nat>)
    decreases |ks|
  {
    && ks != [] && node < |src.records| && Reached(src, src.records[node].child, ks[0])
    && (|ks| > 1 ==>
          ks[0] < |src.records| && src.records[ks[0]].entryType == STGTY_STORAGE && Chain(src, ks[0], ks[1..]))
  }

  function Names(src: Source, ks: seq<nat>): seq<string> {
    if ks == [] then [] else [NameOf(src, ks[0])] + Names(src, ks[1..])
  }

  predicate Wanted(src: Source, k: nat, streams: bool, storages: bool) {
    && k < |src.records|
    && ((src.records[k].entryType == STGTY_STREAM && streams)
        || (src.records[k].entryType == STGTY_STORAGE && storages))
  }

  lemma {:induction false} NamesStep(src: Source, prefix: seq<string>, ks: seq<nat>)
    requires ks != []
    ensures prefix + Names(src, ks) == (prefix + [NameOf(src, ks[0])]) + Names(src, ks[1..])
  {
  }

  lemma {:induction false} OneChain(src: Source, node: nat, k: nat)
    requires node < |src.records| && Reached(src, src.records[node].child, k)
    ensures Chain(src, node, [k]) && Names(src, [k]) == [NameOf(src, k)]
  {
    assert Names(src, [k][1..]) == [];
  }

  lemma {:induction false} LongerChain(src: Source, prefix: seq<string>, node: nat, k: nat, rest: seq<nat>)
    requires node < |src.records| && Reached(src, src.records[node].child, k)
    requires k < |src.records| && src.records[k].entryType == STGTY_STORAGE && Chain(src, k, rest)
    ensures Chain(src, node, [k] + rest)
    ensures prefix + Names(src, [k] + rest) == (prefix + [NameOf(src, k)]) + Names(src, rest)
  {
    assert ([k] + rest)[1..] == rest;
    NamesStep(src, prefix, [k] + rest);
  }

  lemma HereOrMore(
      src: Source, d: Dir, prefix: seq<string>, node: nat, i: nat, streams: bool, storages: bool, l: Listed)
    requires Listable(src, d) && node in d.rank && i < |d.kids[node]|
    requires ListFrom(src, d, prefix, node, i, streams, storages).Ok?
    ensures ListEntry(src, d, prefix, node, i, streams, storages).Ok?
    ensures ListFrom(src, d, prefix, node, i + 1, streams, storages).Ok?
    ensures l in ListFrom(src, d, prefix, node, i, streams, storages).value <==>
            l in ListEntry(src, d, prefix, node, i, streams, storages).value
            || l in ListFrom(src, d, prefix, node, i + 1, streams, storages).value
  {
  }

  /** What is listed for an entry: itself, if it is wanted, and what is below a storage. */
  lemma {:induction false} EntryOrBelow(
      src: Source, d: Dir, prefix: seq<string>, node: nat, i: nat, k: nat, streams: bool, storages: bool, l: Listed)
    requires Listable(src, d) && node in d.rank && i < |d.kids[node]| && k == d.kids[node][i]
    requires ListEntry(src, d, prefix, node, i, streams, storages).Ok?
    ensures k in d.rank && k < |src.records| && d.rank[node] < d.rank[k] < |d.rank|
    ensures src.records[k].entryType == STGTY_STORAGE ==>
              ListFrom(src, d, prefix + [NameOf(src, k)], k, 0, streams, storages).Ok?
    ensures l in ListEntry(src, d, prefix, node, i, streams, storages).value <==>
            || (Wanted(src, k, streams, storages) && l == (prefix + [NameOf(src, k)], k))
            || (src.records[k].entryType == STGTY_STORAGE
                && l in ListFrom(src, d, prefix + [NameOf(src, k)], k, 0, streams, storages).value)
  {
    KidIsLoaded(src, d, node, i);
  }

  /** Every chain to a wanted entry is in the list. */
  lemma {:induction false} ChainIsListed(
      src: Source, d: Dir, prefix: seq<string>, node: nat, i: nat, j: nat, streams: bool, storages: bool, ks: seq<nat>,
      l: Listed)
    requires LoadDirectory(src) == Ok(d) && Listable(src, d) && node in d.rank && i <= j < |d.kids[node]|
    requires ListFrom(src, d, prefix, node, i, streams, storages).Ok?
    requires Chain(src, node, ks) && ks[0] == d.kids[node][j] && Wanted(src, ks[|ks| - 1], streams, storages)
    requires l == (prefix + Names(src, ks), ks[|ks| - 1])
    ensures l in ListFrom(src, d, prefix, node, i, streams, storages).value
    decreases |d.rank| - d.rank[node], |d.kids[node]| - i
  {
    HereOrMore(src, d, prefix, node, i, streams, storages, l);
    if i < j {
      ChainIsListed(src, d, prefix, node, i + 1, j, streams, storages, ks, l);
    } else {
      var k := ks[0];
      EntryOrBelow(src, d, prefix, node, i, k, streams, storages, l);
      NamesStep(src, prefix, ks);
      var path := prefix + [NameOf(src, k)];
      if |ks| == 1 {
        assert Names(src, ks[1..]) == [] && path + [] == path;
      } else {
        KidLoaded(src, k, ks[1]);
        var m :| 0 <= m < |d.kids[k]| && d.kids[k][m] == ks[1];
        ChainIsListed(src, d, path, k, 0, m, streams, storages, ks[1..], l);
      }
    }
  }

  /** Everything in the list comes from such a chain. */
  lemma {:induction false} ListedIsChain(
      src: Source, d: Dir, prefix: seq<string>, node: nat, i: nat, streams: bool, storages: bool, l: Listed)
    returns (ks: seq<nat>)
    requires LoadDirectory(src) == Ok(d) && Listable(src, d) && node in d.rank && i <= |d.kids[node]|
    requires ListFrom(src, d, prefix, node, i, streams, storages).Ok?
    requires l in ListFrom(src, d, prefix, node, i, streams, storages).value
    ensures Chain(src, node, ks) && Wanted(src, ks[|ks| - 1], streams, storages)
    ensures l == (prefix + Names(src, ks), ks[|ks| - 1]) && ks[0] in d.kids[node][i..]
    decreases |d.rank| - d.rank[node], |d.kids[node]| - i
  {
    HereOrMore(src, d, prefix, node, i, streams, storages, l);
    var k := d.kids[node][i];
    assert k == d.kids[node][i..][0] && d.kids[node][i..][1..] == d.kids[node][i + 1..];
    if l in ListFrom(src, d, prefix, node, i + 1, streams, storages).value {
      ks := ListedIsChain(src, d, prefix, node, i + 1, streams, storages, l);
    } else {
      EntryOrBelow(src, d, prefix, node, i, k, streams, storages, l);
      KidsExactly(src, node);
      if src.records[k].entryType == STGTY_STORAGE
         && l in ListFrom(src, d, prefix + [NameOf(src, k)], k, 0, streams, storages).value {
        var rest := ListedIsChain(src, d, prefix + [NameOf(src, k)], k, 0, streams, storages, l);
        ks := [k] + rest;
        LongerChain(src, prefix, node, k, rest);
      } else {
        ks := [k];
        OneChain(src, node, k);
      }
    }
  }

  /** listdir gives exactly the wanted entries that storages lead to, each with the names on the way. */
  lemma {:induction false} ListsExactly(src: Source, streams: bool, storages: bool, l: Listed)
    requires LoadDirectory(src).Ok? && Listdir(src, streams, storages).Ok?
    ensures l in Listdir(src, streams, storages).value <==>
            exists ks: seq<nat> :: Chain(src, 0, ks) && Wanted(src, ks[|ks| - 1], streams, storages)
                                   && l == (Names(src, ks), ks[|ks| - 1])
  {
    LoadedDirectory(src);
    var d := LoadDirectory(src).value;
    if l in ListFrom(src, d, [], 0, 0, streams, storages).value {
      var ks := ListedIsChain(src, d, [], 0, 0, streams, storages, l);
      assert [] + Names(src, ks) == Names(src, ks);
    }
    if ks: seq<nat> :| Chain(src, 0, ks) && Wanted(src, ks[|ks| - 1], streams, storages)
                       && l == (Names(src, ks), ks[|ks| - 1]) {
      KidLoaded(src, 0, ks[0]);
      var j :| 0 <= j < |d.kids[0]| && d.kids[0][j] == ks[0];
      assert [] + Names(src, ks) == Names(src, ks);
      ChainIsListed(src, d, [], 0, 0, j, streams, storages, ks, l);
    }
  }

  predicate Typed(src: Source, k: nat) {
    k < |src.records| && src.records[k].entryType in {STGTY_STREAM, STGTY_STORAGE}
  }

  lemma {:induction false} ListedIsTyped(
      src: Source, d: Dir, prefix: seq<string>, node: nat, i: nat, j: nat, streams: bool, storages: bool, ks: seq<nat>)
    requires LoadDirectory(src) == Ok(d) && Listable(src, d) && node in d.rank && i <= j < |d.kids[node]|
    requires ListFrom(src, d, prefix, node, i, streams, storages).Ok?
    requires Chain(src, node, ks) && ks[0] == d.kids[node][j]
    ensures Typed(src, ks[|ks| - 1])
    decreases |d.rank| - d.rank[node], |d.kids[node]| - i
  {
    var l := (prefix, node);
    HereOrMore(src, d, prefix, node, i, streams, storages, l);
    if i < j {
      ListedIsTyped(src, d, prefix, node, i + 1, j, streams, storages, ks);
    } else {
      var k := ks[0];
      EntryOrBelow(src, d, prefix, node, i, k, streams, storages, l);
      if |ks| > 1 {
        KidLoaded(src, k, ks[1]);
        var m :| 0 <= m < |d.kids[k]| && d.kids[k][m] == ks[1];
        ListedIsTyped(src, d, prefix + [NameOf(src, k)], k, 0, m, streams, storages, ks[1..]);
      }
    }
  }

  ghost predicate AllTyped(src: Source, node: nat) {
    forall ks: seq<nat> :: Chain(src, node, ks) ==> Typed(src, ks[|ks| - 1])
  }

  lemma TypedBelow(src: Source, node: nat, k: nat)
    requires AllTyped(src, node) && node < |src.records| && Reached(src, src.records[node].child, k)
    ensures Typed(src, k)
    ensures src.records[k].entryType == STGTY_STORAGE ==> AllTyped(src, k)
  {
    OneChain(src, node, k);
    assert [k][|[k]| - 1] == k;
    if src.records[k].entryType == STGTY_STORAGE {
      forall ks: seq<nat> | Chain(src, k, ks) ensures Typed(src, ks[|ks| - 1]) {
        LongerChain(src, [], node, k, ks);
        assert ([k] + ks)[|[k] + ks| - 1] == ks[|ks| - 1];
      }
    }
  }

  lemma {:induction false} TypedIsListed(
      src: Source, d: Dir, prefix: seq<string>, node: nat, i: nat, streams: bool, storages: bool)
    requires LoadDirectory(src) == Ok(d) && Listable(src, d) && node in d.rank && i <= |d.kids[node]|
    requires AllTyped(src, node)
    ensures ListFrom(src, d, prefix, node, i, streams, storages).Ok?
    decreases |d.rank| - d.rank[node], |d.kids[node]| - i
  {
    if i < |d.kids[node]| {
      var k := d.kids[node][i];
      KidIsLoaded(src, d, node, i);
      KidsExactly(src, node);
      TypedBelow(src, node, k);
      if src.records[k].entryType == STGTY_STORAGE {
        TypedIsListed(src, d, prefix + [NameOf(src, k)], k, 0, streams, storages);
      }
      TypedIsListed(src, d, prefix, node, i + 1, streams, storages);
    }
  }

  /** listdir succeeds exactly when storages lead to nothing but streams and storages. */
  lemma {:induction false} ListsWhen(src: Source, streams: bool, storages: bool)
    requires LoadDirectory(src).Ok?
    ensures Listdir(src, streams, storages).Ok? <==> AllTyped(src, 0)
  {
    LoadedDirectory(src);
    var d := LoadDirectory(src).value;
    if ListFrom(src, d, [], 0, 0, streams, storages).Ok? {
      forall ks: seq<nat> | Chain(src, 0, ks) ensures Typed(src, ks[|ks| - 1]) {
        KidLoaded(src, 0, ks[0]);
        var j :| 0 <= j < |d.kids[0]| && d.kids[0][j] == ks[0];
        ListedIsTyped(src, d, [], 0, 0, j, streams, storages, ks);
      }
    }
    if AllTyped(src, 0) {
      TypedIsListed(src, d, [], 0, 0, streams, storages);
    }
  }

  /** By name, one name after the other; a storage comes before what is in it. */
  predicate PathLess(a: seq<string>, b: seq<string>)
    decreases a
  {
    b != [] && (a == [] || NameLess(a[0], b[0]) || (a[0] == b[0] && PathLess(a[1..], b[1..])))
  }

  /** Longer than the prefix, and in order behind it. */
  ghost predicate InOrder(ls: seq<Listed>, n: nat) {
    && (forall l :: l in ls ==> |l.0| > n)
    && forall x, y :: 0 <= x < y < |ls| ==> PathLess(ls[x].0[n..], ls[y].0[n..])
  }

  lemma OrderShorter(ls: seq<Listed>, path: seq<string>)
    requires path != [] && InOrder(ls, |path|) && forall l :: l in ls ==> path <= l.0
    ensures InOrder(ls, |path| - 1)
  {
    var n := |path| - 1;
    forall x, y | 0 <= x < y < |ls| ensures PathLess(ls[x].0[n..], ls[y].0[n..]) {
      assert ls[x] in ls && ls[y] in ls;
      assert ls[x].0[n..][1..] == ls[x].0[n + 1..] && ls[y].0[n..][1..] == ls[y].0[n + 1..];
    }
  }

  /** A storage comes before what is in it. */
  lemma OwnFirst(path: seq<string>, l: seq<string>)
    requires path != [] && path <= l && |path| < |l|
    ensures PathLess(path[|path| - 1..], l[|path| - 1..])
  {
    var n := |path| - 1;
    assert path[n..] == [path[n]] && path[n..][1..] == [] && l[n..][1..] == l[n + 1..];
  }

  lemma OrderBelow(own: seq<Listed>, ls: seq<Listed>, path: seq<string>, k: nat)
    requires path != [] && InOrder(ls, |path|) && forall l :: l in ls ==> path <= l.0
    requires own == [] || own == [(path, k)]
    ensures InOrder(own + ls, |path| - 1)
  {
    var n := |path| - 1;
    OrderShorter(ls, path);
    forall l, m | l in own && m in ls ensures PathLess(l.0[n..], m.0[n..]) {
      OwnFirst(path, m.0);
    }
    OrderBoth(own, ls, n);
  }

  lemma OrderBoth(a: seq<Listed>, b: seq<Listed>, n: nat)
    requires InOrder(a, n) && InOrder(b, n)
    requires forall l, m :: l in a && m in b ==> PathLess(l.0[n..], m.0[n..])
    ensures InOrder(a + b, n)
  {
    forall x, y | 0 <= x < y < |a + b| ensures PathLess((a + b)[x].0[n..], (a + b)[y].0[n..]) {
      if x < |a| <= y {
        assert a[x] in a && b[y - |a|] in b;
      }
    }
  }

  lemma {:induction false} PathsBelow(src: Source, d: Dir, path: seq<string>, k: nat, streams: bool, storages: bool)
    requires LoadDirectory(src) == Ok(d) && Listable(src, d) && k in d.rank
    requires ListFrom(src, d, path, k, 0, streams, storages).Ok?
    ensures forall l :: l in ListFrom(src, d, path, k, 0, streams, storages).value ==> path <= l.0
  {
    forall l | l in ListFrom(src, d, path, k, 0, streams, storages).value ensures path <= l.0 {
      var ks := ListedIsChain(src, d, path, k, 0, streams, storages, l);
    }
  }

  /** What is listed for an entry has its name in the place after the prefix. */
  lemma {:induction false} HereNamed(
      src: Source, d: Dir, prefix: seq<string>, node: nat, i: nat, streams: bool, storages: bool, l: Listed)
    requires LoadDirectory(src) == Ok(d) && Listable(src, d) && node in d.rank && i < |d.kids[node]|
    requires ListEntry(src, d, prefix, node, i, streams, storages).Ok?
    requires l in ListEntry(src, d, prefix, node, i, streams, storages).value
    ensures |l.0| > |prefix| && l.0[|prefix|] == NameOf(src, d.kids[node][i])
  {
    var k := d.kids[node][i];
    EntryOrBelow(src, d, prefix, node, i, k, streams, storages, l);
    if src.records[k].entryType == STGTY_STORAGE {
      PathsBelow(src, d, prefix + [NameOf(src, k)], k, streams, storages);
    }
  }

  lemma MoreNamed(
      src: Source, d: Dir, prefix: seq<string>, node: nat, i: nat, streams: bool, storages: bool, l: Listed)
    requires LoadDirectory(src) == Ok(d) && Listable(src, d) && node in d.rank && i < |d.kids[node]|
    requires ListFrom(src, d, prefix, node, i + 1, streams, storages).Ok?
    requires l in ListFrom(src, d, prefix, node, i + 1, streams, storages).value
    ensures |l.0| > |prefix| && NameLess(NameOf(src, d.kids[node][i]), l.0[|prefix|])
  {
    var ks := ListedIsChain(src, d, prefix, node, i + 1, streams, storages, l);
    KidsExactly(src, node);
    var j :| 0 <= j < |d.kids[node][i + 1..]| && d.kids[node][i + 1..][j] == ks[0];
    assert d.kids[node][i + 1 + j] == ks[0];
    assert l.0[|prefix|] == Names(src, ks)[0] == NameOf(src, ks[0]);
  }

  lemma {:induction false} EntryOfStorage(
      src: Source, d: Dir, prefix: seq<string>, node: nat, i: nat, k: nat, streams: bool, storages: bool)
    requires Listable(src, d) && node in d.rank && i < |d.kids[node]| && k == d.kids[node][i]
    requires ListEntry(src, d, prefix, node, i, streams, storages).Ok?
    ensures k in d.rank && k < |src.records| && d.rank[node] < d.rank[k] < |d.rank|
    ensures src.records[k].entryType == STGTY_STORAGE ==>
              var path := prefix + [NameOf(src, k)];
              && ListFrom(src, d, path, k, 0, streams, storages).Ok?
              && ListEntry(src, d, prefix, node, i, streams, storages).value
                 == (if storages then [(path, k)] else []) + ListFrom(src, d, path, k, 0, streams, storages).value
    ensures src.records[k].entryType != STGTY_STORAGE ==>
              InOrder(ListEntry(src, d, prefix, node, i, streams, storages).value, |prefix|)
  {
    KidIsLoaded(src, d, node, i);
  }

  lemma {:induction false} EntryInOrder(
      src: Source, d: Dir, prefix: seq<string>, node: nat, i: nat, streams: bool, storages: bool)
    requires LoadDirectory(src) == Ok(d) && Listable(src, d) && node in d.rank && i < |d.kids[node]|
    requires ListEntry(src, d, prefix, node, i, streams, storages).Ok?
    ensures InOrder(ListEntry(src, d, prefix, node, i, streams, storages).value, |prefix|)
    decreases |d.rank| - d.rank[node], |d.kids[node]| - i, 0
  {
    var k := d.kids[node][i];
    EntryOfStorage(src, d, prefix, node, i, k, streams, storages);
    if src.records[k].entryType == STGTY_STORAGE {
      var path := prefix + [NameOf(src, k)];
      InOrderFrom(src, d, path, k, 0, streams, storages);
      PathsBelow(src, d, path, k, streams, storages);
      OrderBelow(if storages then [(path, k)] else [], ListFrom(src, d, path, k, 0, streams, storages).value, path, k);
    }
  }

  lemma {:induction false} InOrderFrom(
      src: Source, d: Dir, prefix: seq<string>, node: nat, i: nat, streams: bool, storages: bool)
    requires LoadDirectory(src) == Ok(d) && Listable(src, d) && node in d.rank && i <= |d.kids[node]|
    requires ListFrom(src, d, prefix, node, i, streams, storages).Ok?
    ensures InOrder(ListFrom(src, d, prefix, node, i, streams, storages).value, |prefix|)
    decreases |d.rank| - d.rank[node], |d.kids[node]| - i, 1
  {
    if i < |d.kids[node]| {
      HereOrMore(src, d, prefix, node, i, streams, storages, ([], 0));
      EntryInOrder(src, d, prefix, node, i, streams, storages);
      InOrderFrom(src, d, prefix, node, i + 1, streams, storages);
      var here := ListEntry(src, d, prefix, node, i, streams, storages).value;
      var more := ListFrom(src, d, prefix, node, i + 1, streams, storages).value;
      forall l, m | l in here && m in more ensures PathLess(l.0[|prefix|..], m.0[|prefix|..]) {
        HereNamed(src, d, prefix, node, i, streams, storages, l);
        MoreNamed(src, d, prefix, node, i, streams, storages, m);
      }
      OrderBoth(here, more, |prefix|);
    }
  }

  /** listdir gives its paths in the order of their names. */
  lemma {:induction false} ListsInOrder(src: Source, streams: bool, storages: bool)
    requires LoadDirectory(src).Ok? && Listdir(src, streams, storages).Ok?
    ensures var paths := Paths(Listdir(src, streams, storages).value);
            forall x, y :: 0 <= x < y < |paths| ==> PathLess(paths[x], paths[y])
  {
    LoadedDirectory(src);
    var ls := ListFrom(src, LoadDirectory(src).value, [], 0, 0, streams, storages).value;
    InOrderFrom(src, LoadDirectory(src).value, [], 0, 0, streams, storages);
    forall x, y | 0 <= x < y < |ls| ensures PathLess(ls[x].0, ls[y].0) {
      assert ls[x].0[0..] == ls[x].0 && ls[y].0[0..] == ls[y].0;
    }
  }

  /** The entry that the names lead to, whatever their case. */
  ghost predicate Spells(src: Source, node: nat, path: seq<string>, k: nat)
    decreases path
  {
    if path == [] then k == node
    else (node < |src.records|
          && exists m: nat :: Reached(src, src.records[node].child, m) && LowerName(src, m) == src.lower(path[0])
                              && Spells(src, m, path[1..], k))
  }

  lemma {:induction false} MatchIs(src: Source, ks: seq<nat>, name: string, m: nat)
    requires DistinctNames(src, ks)
    ensures FirstMatch(src, ks, name) == Some(m) <==> m in ks && LowerName(src, m) == src.lower(name)
  {
    if ks == [] {
    } else {
      assert ks == [ks[0]] + ks[1..];
      MatchIs(src, ks[1..], name, m);
      forall j | 0 <= j < |ks[1..]| ensures LowerName(src, ks[1..][j]) != LowerName(src, ks[0]) {
        assert ks[1..][j] == ks[j + 1];
      }
    }
  }

  /** Looking up finds an entry exactly when the names lead to it. */
  lemma {:induction false} FindExactly(src: Source, node: nat, path: seq<string>, k: nat)
    requires LoadDirectory(src).Ok? && node in LoadDirectory(src).value.rank
    ensures FindFrom(src, LoadDirectory(src).value, node, path) == Ok(k) <==> Spells(src, node, path, k)
    decreases path
  {
    var d := LoadDirectory(src).value;
    if path == [] {
    } else {
      KidsExactly(src, node);
      LoadedDirectory(src);
      assert UniqueNames(src, d) && DistinctNames(src, d.kids[node]);
      forall m: nat | Reached(src, src.records[node].child, m) && LowerName(src, m) == src.lower(path[0])
        ensures FirstMatch(src, d.kids[node], path[0]) == Some(m)
      {
        MatchIs(src, d.kids[node], path[0], m);
      }
      var first := FirstMatch(src, d.kids[node], path[0]);
      if first.Some? {
        MatchIs(src, d.kids[node], path[0], first.value);
        KidLoaded(src, node, first.value);
        FindExactly(src, first.value, path[1..], k);
      }
    }
  }
}
