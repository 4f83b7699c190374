/** Where the fields of each record stand, in bytes, as section 4.3 of the ZIP application note has them. */
module ZipLayout {
  import opened Bits
  import opened ZipStruct

  /** How many bytes come before the i-th field. */
  function Before(f: Format, i: nat): nat
    requires i <= |f|
  {
    if i == 0 then 0 else Before(f, i - 1) + f[i - 1]
  }

  lemma {:induction false} BeforeRest(f: Format, i: nat)
    requires 0 < i <= |f|
    ensures Before(f, i) == f[0] + Before(f[1..], i - 1)
  {
    if i == 1 {
      assert Before(f, 0) == 0;
    } else {
      BeforeRest(f, i - 1);
      assert f[1..][i - 2] == f[i - 1];
    }
  }

  lemma {:induction false} BeforeFits(f: Format, i: nat)
    requires i <= |f|
    ensures Before(f, i) <= SizeOf(f)
  {
    if i == 0 {
    } else {
      BeforeRest(f, i);
      BeforeFits(f[1..], i - 1);
    }
  }

  /** A field of a record is the number in the bytes where it stands. */
  lemma {:induction false} FieldAt(f: Format, s: seq<byte>, i: nat, at: nat, n: nat)
    requires |s| == SizeOf(f) && i < |f| && at == Before(f, i) && n == f[i]
    ensures at + n <= |s| && Unpack(f, s)[i] == UnpackInt(s[at..at + n])
    decreases i
  {
    BeforeFits(f, i + 1);
    if i == 0 {
    } else {
      BeforeRest(f, i);
      FieldAt(f[1..], s[f[0]..], i - 1, at - f[0], n);
      assert s[f[0]..][at - f[0]..at - f[0] + n] == s[at..at + n];
    }
  }

  lemma {:induction false} Next(f: Format, i: nat, at: nat)
    requires i < |f| && Before(f, i) == at
    ensures Before(f, i + 1) == at + f[i]
  {
  }

  /** The local header: section 4.3.7. */
  lemma {:induction false} LocalStarts()
    ensures |LOCAL| == 12
    ensures Before(LOCAL, 0) == 0 && Before(LOCAL, 1) == 4 && Before(LOCAL, 2) == 5 && Before(LOCAL, 3) == 6
    ensures Before(LOCAL, 4) == 8 && Before(LOCAL, 5) == 10 && Before(LOCAL, 6) == 12 && Before(LOCAL, 7) == 14
    ensures Before(LOCAL, 8) == 18 && Before(LOCAL, 9) == 22 && Before(LOCAL, 10) == 26 && Before(LOCAL, 11) == 28
  {
    Next(LOCAL, 0, 0);
    Next(LOCAL, 1, 4);
    Next(LOCAL, 2, 5);
    Next(LOCAL, 3, 6);
    Next(LOCAL, 4, 8);
    Next(LOCAL, 5, 10);
    Next(LOCAL, 6, 12);
    Next(LOCAL, 7, 14);
    Next(LOCAL, 8, 18);
    Next(LOCAL, 9, 22);
    Next(LOCAL, 10, 26);
  }

  /** The directory entry: section 4.3.12. */
  lemma {:induction false} CentralStarts()
    ensures |CENTRAL| == 19
    ensures Before(CENTRAL, 0) == 0 && Before(CENTRAL, 1) == 4 && Before(CENTRAL, 2) == 5 && Before(CENTRAL, 3) == 6
    ensures Before(CENTRAL, 4) == 7 && Before(CENTRAL, 5) == 8 && Before(CENTRAL, 6) == 10 && Before(CENTRAL, 7) == 12
    ensures Before(CENTRAL, 8) == 14 && Before(CENTRAL, 9) == 16
    ensures Before(CENTRAL, 10) == 20 && Before(CENTRAL, 11) == 24
    ensures Before(CENTRAL, 12) == 28 && Before(CENTRAL, 13) == 30
    ensures Before(CENTRAL, 14) == 32 && Before(CENTRAL, 15) == 34
    ensures Before(CENTRAL, 16) == 36 && Before(CENTRAL, 17) == 38 && Before(CENTRAL, 18) == 42
  {
    Next(CENTRAL, 0, 0);
    Next(CENTRAL, 1, 4);
    Next(CENTRAL, 2, 5);
    Next(CENTRAL, 3, 6);
    Next(CENTRAL, 4, 7);
    Next(CENTRAL, 5, 8);
    Next(CENTRAL, 6, 10);
    Next(CENTRAL, 7, 12);
    Next(CENTRAL, 8, 14);
    Next(CENTRAL, 9, 16);
    Next(CENTRAL, 10, 20);
    Next(CENTRAL, 11, 24);
    Next(CENTRAL, 12, 28);
    Next(CENTRAL, 13, 30);
    Next(CENTRAL, 14, 32);
    Next(CENTRAL, 15, 34);
    Next(CENTRAL, 16, 36);
    Next(CENTRAL, 17, 38);
  }

  /** The end record: section 4.3.16. */
  lemma {:induction false} EndStarts()
    ensures |END| == 8
    ensures Before(END, 0) == 0 && Before(END, 1) == 4 && Before(END, 2) == 6 && Before(END, 3) == 8
    ensures Before(END, 4) == 10 && Before(END, 5) == 12 && Before(END, 6) == 16 && Before(END, 7) == 20
  {
    Next(END, 0, 0);
    Next(END, 1, 4);
    Next(END, 2, 6);
    Next(END, 3, 8);
    Next(END, 4, 10);
    Next(END, 5, 12);
    Next(END, 6, 16);
  }

  /** The ZIP64 locator: section 4.3.15. */
  lemma {:induction false} Locator64Starts()
    ensures |LOCATOR64| == 4
    ensures Before(LOCATOR64, 0) == 0 && Before(LOCATOR64, 1) == 4
    ensures Before(LOCATOR64, 2) == 8 && Before(LOCATOR64, 3) == 16
  {
    Next(LOCATOR64, 0, 0);
    Next(LOCATOR64, 1, 4);
    Next(LOCATOR64, 2, 8);
  }

  /** The ZIP64 end record: section 4.3.14. */
  lemma {:induction false} End64Starts()
    ensures |END64| == 10
    ensures Before(END64, 0) == 0 && Before(END64, 1) == 4 && Before(END64, 2) == 12 && Before(END64, 3) == 14
    ensures Before(END64, 4) == 16 && Before(END64, 5) == 20 && Before(END64, 6) == 24 && Before(END64, 7) == 32
    ensures Before(END64, 8) == 40 && Before(END64, 9) == 48
  {
    Next(END64, 0, 0);
    Next(END64, 1, 4);
    Next(END64, 2, 12);
    Next(END64, 3, 14);
    Next(END64, 4, 16);
    Next(END64, 5, 20);
    Next(END64, 6, 24);
    Next(END64, 7, 32);
    Next(END64, 8, 40);
  }
}
