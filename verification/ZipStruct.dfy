/** Python's struct module for little-endian formats, and the record formats of bin/custom_zipfile.py. */
module ZipStruct {
  import opened Bits

  function Pow256(n: nat): (p: nat)
    ensures p > 0
  {
    if n == 0 then 1 else 256 * Pow256(n - 1)
  }

  function PackInt(v: nat, n: nat): (s: seq<byte>)
    ensures |s| == n
    decreases n
  {
    if n == 0 then [] else [v % 256] + PackInt(v / 256, n - 1)
  }

  function UnpackInt(s: seq<byte>): (v: nat)
    ensures v < Pow256(|s|)
  {
    if s == [] then 0 else s[0] + 256 * UnpackInt(s[1..])
  }

  lemma {:induction false} UnpackPackInt(v: nat, n: nat)
    requires v < Pow256(n)
    ensures UnpackInt(PackInt(v, n)) == v
    decreases n
  {
    if n == 0 {
    } else {
      assert PackInt(v, n)[1..] == PackInt(v / 256, n - 1);
      UnpackPackInt(v / 256, n - 1);
    }
  }

  /** A format is the list of the widths of its fields, in bytes. */
  type Format = seq<nat>

  function SizeOf(f: Format): nat {
    if f == [] then 0 else f[0] + SizeOf(f[1..])
  }

  /** struct.pack raises struct.error for a value that does not fit its field. */
  predicate Fits(f: Format, vs: seq<nat>) {
    |f| == |vs| && forall i :: 0 <= i < |f| ==> vs[i] < Pow256(f[i])
  }

  function Pack(f: Format, vs: seq<nat>): (s: seq<byte>)
    requires |f| == |vs|
    ensures |s| == SizeOf(f)
    decreases |f|, |vs|
  {
    if f == [] then [] else PackInt(vs[0], f[0]) + Pack(f[1..], vs[1..])
  }

  function Unpack(f: Format, s: seq<byte>): (vs: seq<nat>)
    requires |s| == SizeOf(f)
    ensures |vs| == |f|
    decreases |f|, |s|
  {
    if f == [] then [] else [UnpackInt(s[..f[0]])] + Unpack(f[1..], s[f[0]..])
  }

  /** Unpacking what was packed gives the values back. */
  lemma {:induction false} UnpackPack(f: Format, vs: seq<nat>)
    requires Fits(f, vs)
    ensures Unpack(f, Pack(f, vs)) == vs
    decreases |f|
  {
    if f == [] {
    } else {
      var s := Pack(f, vs);
      assert s[..f[0]] == PackInt(vs[0], f[0]) && s[f[0]..] == Pack(f[1..], vs[1..]);
      UnpackPackInt(vs[0], f[0]);
      UnpackPack(f[1..], vs[1..]);
      assert vs == [vs[0]] + vs[1..];
    }
  }

  /** Unpacked values fit: packing them again cannot fail, and gives the bytes back. */
  lemma {:induction false} PackUnpack(f: Format, s: seq<byte>)
    requires |s| == SizeOf(f)
    ensures Fits(f, Unpack(f, s)) && Pack(f, Unpack(f, s)) == s
    decreases |f|
  {
    if f == [] {
    } else {
      PackUnpack(f[1..], s[f[0]..]);
      PackUnpackInt(s[..f[0]]);
      var vs := Unpack(f, s);
      assert vs[1..] == Unpack(f[1..], s[f[0]..]);
      assert s == s[..f[0]] + s[f[0]..];
    }
  }

  lemma {:induction false} PackUnpackInt(s: seq<byte>)
    ensures PackInt(UnpackInt(s), |s|) == s
  {
    if s == [] {
    } else {
      PackUnpackInt(s[1..]);
      assert (s[0] + 256 * UnpackInt(s[1..])) / 256 == UnpackInt(s[1..]);
    }
  }

  const ZIP64_LIMIT := 0x7FFF_FFFF
  const ZIP_FILECOUNT_LIMIT := 0xFFFF
  const ZIP_MAX_COMMENT := 0xFFFF
  const MAX32 := 0xFFFF_FFFF
  const MAX64 := 0xFFFF_FFFF_FFFF_FFFF

  // The signatures of section 4.3 of the application note, as numbers.
  const LOCAL_SIGNATURE := 0x04034b50
  const CENTRAL_SIGNATURE := 0x02014b50
  const END_SIGNATURE := 0x06054b50
  const LOCATOR64_SIGNATURE := 0x07064b50
  const END64_SIGNATURE := 0x06064b50

  const LOCAL: Format := [4, 1, 1, 2, 2, 2, 2, 4, 4, 4, 2, 2]
  const CENTRAL: Format := CENTRAL_HEAD + CENTRAL_MIDDLE + CENTRAL_TAIL
  const CENTRAL_HEAD: Format := [4, 1, 1, 1, 1, 2]
  const CENTRAL_MIDDLE: Format := [2, 2, 2, 4, 4, 4]
  const CENTRAL_TAIL: Format := [2, 2, 2, 2, 2, 4, 4]
  const END: Format := [4, 2, 2, 2, 2, 4, 4, 2]
  const LOCATOR64: Format := [4, 4, 8, 4]
  const END64: Format := [4, 8, 2, 2, 4, 4, 8, 8, 8, 8]
  const FIELD: Format := [2, 2]

  lemma {:induction false} SizeOfConcat(a: Format, b: Format)
    ensures SizeOf(a + b) == SizeOf(a) + SizeOf(b)
  {
    if a == [] {
      assert a + b == b;
    } else {
      assert (a + b)[1..] == a[1..] + b;
      SizeOfConcat(a[1..], b);
    }
  }

  lemma SizeOfTwo(a: nat, b: nat)
    ensures SizeOf([a, b]) == a + b
  {
    assert [a, b][1..] == [b];
    assert SizeOf([b]) == b + SizeOf([]) by {
      assert [b][1..] == [];
    }
  }

  lemma SizeOfFour(a: nat, b: nat, c: nat, d: nat)
    ensures SizeOf([a, b, c, d]) == a + b + c + d
  {
    SizeOfTwo(a, b);
    SizeOfTwo(c, d);
    SizeOfConcat([a, b], [c, d]);
    assert [a, b, c, d] == [a, b] + [c, d];
  }

  lemma {:induction false} SizeOfEight(f: Format)
    requires |f| == 8
    ensures SizeOf(f) == f[0] + f[1] + f[2] + f[3] + f[4] + f[5] + f[6] + f[7]
  {
    SizeOfFour(f[0], f[1], f[2], f[3]);
    SizeOfFour(f[4], f[5], f[6], f[7]);
    SizeOfConcat(f[..4], f[4..]);
    assert f[..4] == [f[0], f[1], f[2], f[3]] && f[4..] == [f[4], f[5], f[6], f[7]] && f == f[..4] + f[4..];
  }

  lemma SmallSizes()
    ensures SizeOf(END) == 22 && SizeOf(LOCATOR64) == 20 && SizeOf(FIELD) == 4
  {
    SizeOfEight(END);
    SizeOfFour(4, 4, 8, 4);
    SizeOfTwo(2, 2);
  }

  lemma LocalSize()
    ensures SizeOf(LOCAL) == 30
  {
    SizeOfEight([4, 1, 1, 2, 2, 2, 2, 4]);
    SizeOfFour(4, 4, 2, 2);
    SizeOfConcat([4, 1, 1, 2, 2, 2, 2, 4], [4, 4, 2, 2]);
    assert LOCAL == [4, 1, 1, 2, 2, 2, 2, 4] + [4, 4, 2, 2];
  }

  lemma End64Size()
    ensures SizeOf(END64) == 56
  {
    SizeOfEight([4, 8, 2, 2, 4, 4, 8, 8]);
    SizeOfTwo(8, 8);
    SizeOfConcat([4, 8, 2, 2, 4, 4, 8, 8], [8, 8]);
    assert END64 == [4, 8, 2, 2, 4, 4, 8, 8] + [8, 8];
  }

  lemma SizeOfThree(a: nat, b: nat, c: nat)
    ensures SizeOf([a, b, c]) == a + b + c
  {
    SizeOfTwo(b, c);
    assert [a, b, c][1..] == [b, c];
  }

  lemma SizeOfSix(a: nat, b: nat, c: nat, d: nat, e: nat, f: nat)
    ensures SizeOf([a, b, c, d, e, f]) == a + b + c + d + e + f
  {
    SizeOfFour(a, b, c, d);
    SizeOfTwo(e, f);
    SizeOfConcat([a, b, c, d], [e, f]);
    assert [a, b, c, d, e, f] == [a, b, c, d] + [e, f];
  }

  lemma CentralTailSize()
    ensures SizeOf(CENTRAL_TAIL) == 18
  {
    SizeOfFour(2, 2, 2, 2);
    SizeOfThree(2, 4, 4);
    SizeOfConcat([2, 2, 2, 2], [2, 4, 4]);
    assert CENTRAL_TAIL == [2, 2, 2, 2] + [2, 4, 4];
  }

  lemma CentralSize()
    ensures SizeOf(CENTRAL) == 46
  {
    SizeOfSix(4, 1, 1, 1, 1, 2);
    SizeOfSix(2, 2, 2, 4, 4, 4);
    CentralTailSize();
    SizeOfConcat(CENTRAL_HEAD, CENTRAL_MIDDLE);
    SizeOfConcat(CENTRAL_HEAD + CENTRAL_MIDDLE, CENTRAL_TAIL);
  }

  lemma Sizes()
    ensures SizeOf(LOCAL) == 30 && SizeOf(CENTRAL) == 46 && SizeOf(END) == 22
    ensures SizeOf(LOCATOR64) == 20 && SizeOf(END64) == 56 && SizeOf(FIELD) == 4
  {
    SmallSizes();
    LocalSize();
    End64Size();
    CentralSize();
  }

  // One packer and one unpacker for each record.

  function PackLocal(vs: seq<nat>): (s: seq<byte>)
    requires |vs| == |LOCAL|
    ensures |s| == 30
  {
    Sizes();
    Pack(LOCAL, vs)
  }

  function UnpackLocal(s: seq<byte>): (vs: seq<nat>)
    requires |s| == 30
    ensures |vs| == |LOCAL|
  {
    Sizes();
    Unpack(LOCAL, s)
  }

  lemma UnpackLocalOf(vs: seq<nat>)
    requires Fits(LOCAL, vs)
    ensures UnpackLocal(PackLocal(vs)) == vs
  {
    UnpackPack(LOCAL, vs);
  }

  function PackCentral(vs: seq<nat>): (s: seq<byte>)
    requires |vs| == |CENTRAL|
    ensures |s| == 46
  {
    Sizes();
    Pack(CENTRAL, vs)
  }

  function UnpackCentral(s: seq<byte>): (vs: seq<nat>)
    requires |s| == 46
    ensures |vs| == |CENTRAL|
  {
    Sizes();
    Unpack(CENTRAL, s)
  }

  lemma UnpackCentralOf(vs: seq<nat>)
    requires Fits(CENTRAL, vs)
    ensures UnpackCentral(PackCentral(vs)) == vs
  {
    UnpackPack(CENTRAL, vs);
  }

  function PackEnd(vs: seq<nat>): (s: seq<byte>)
    requires |vs| == |END|
    ensures |s| == 22
  {
    Sizes();
    Pack(END, vs)
  }

  function UnpackEnd(s: seq<byte>): (vs: seq<nat>)
    requires |s| == 22
    ensures |vs| == |END|
  {
    Sizes();
    Unpack(END, s)
  }

  lemma UnpackEndOf(vs: seq<nat>)
    requires Fits(END, vs)
    ensures UnpackEnd(PackEnd(vs)) == vs
  {
    UnpackPack(END, vs);
  }

  function PackLocator64(vs: seq<nat>): (s: seq<byte>)
    requires |vs| == |LOCATOR64|
    ensures |s| == 20
  {
    Sizes();
    Pack(LOCATOR64, vs)
  }

  function UnpackLocator64(s: seq<byte>): (vs: seq<nat>)
    requires |s| == 20
    ensures |vs| == |LOCATOR64|
  {
    Sizes();
    Unpack(LOCATOR64, s)
  }

  lemma UnpackLocator64Of(vs: seq<nat>)
    requires Fits(LOCATOR64, vs)
    ensures UnpackLocator64(PackLocator64(vs)) == vs
  {
    UnpackPack(LOCATOR64, vs);
  }

  function PackEnd64(vs: seq<nat>): (s: seq<byte>)
    requires |vs| == |END64|
    ensures |s| == 56
  {
    Sizes();
    Pack(END64, vs)
  }

  function UnpackEnd64(s: seq<byte>): (vs: seq<nat>)
    requires |s| == 56
    ensures |vs| == |END64|
  {
    Sizes();
    Unpack(END64, s)
  }

  lemma UnpackEnd64Of(vs: seq<nat>)
    requires Fits(END64, vs)
    ensures UnpackEnd64(PackEnd64(vs)) == vs
  {
    UnpackPack(END64, vs);
  }

  lemma Powers()
    ensures Pow256(1) == 0x100 && Pow256(2) == 0x1_0000 && Pow256(4) == 0x1_0000_0000
    ensures Pow256(8) == 0x1_0000_0000_0000_0000
  {
  }
}
