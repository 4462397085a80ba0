/** fs_next_slash and get_filename of kernel/fs/fat/fat.c, on the buffers the code writes. */
module ShortNames {
  import opened SectorCache
  import opened ShortNameSpec

  /** chr11: the head of the name in upper case, then zeros. */
  method ReadHead(f: Data, i: nat) returns (chr11: array<byte>)
    requires i <= |f| && forall k :: 0 <= k < i ==> f[k] != 0
    ensures fresh(chr11) && chr11.Length == 13
    ensures var c := Head(f[..i]);
      chr11[..|c|] == c && (forall k :: 0 <= k < |c| ==> chr11[k] != 0) && (forall k :: |c| <= k < 13 ==> chr11[k] == 0)
  {
    chr11 := new byte[13](_ => 0);
    var j := 0;
    while j < 12 && j < i
      invariant j <= Min(i, 12)
      invariant forall k :: 0 <= k < j ==> chr11[k] == UpperByte(f[k])
      invariant forall k :: j <= k < 13 ==> chr11[k] == 0
    {
      chr11[j] := f[j];
      if chr11[j] >= 0x61 && chr11[j] <= 0x7A {
        chr11[j] := chr11[j] - 0x61 + 0x41;
      }
      j := j + 1;
    }
    assert chr11[..j] == Head(f[..i]);
  }

  method Blank(filename11: array<byte>)
    requires filename11.Length == 13
    modifies filename11
    ensures forall k :: 0 <= k < 12 ==> filename11[k] == SPACE
  {
    var j := 0;
    while j < 12
      invariant j <= 12 && forall k :: 0 <= k < j ==> filename11[k] == SPACE
    {
      filename11[j] := 0x20;
      j := j + 1;
    }
  }

  /** The row filename11 holds once the base is copied. */
  function Row(c: Data): (r: Data)
    requires |c| <= 12
    ensures |r| == 12
  {
    c[..First(c, DOT)] + Blanks(12 - First(c, DOT))
  }

  /** The first copying loop of fs_next_slash, over a blank filename11. */
  method CopyBase(chr11: array<byte>, ghost c: Data, filename11: array<byte>) returns (j: nat)
    requires chr11 != filename11 && chr11.Length == 13 && filename11.Length == 13 && |c| <= 12
    requires chr11[..|c|] == c && (forall k :: 0 <= k < |c| ==> chr11[k] != 0) && chr11[|c|] == 0
    requires forall k :: 0 <= k < 12 ==> filename11[k] == SPACE
    modifies filename11
    ensures j == First(c, DOT) && filename11[..12] == Row(c)
  {
    j := 0;
    while j < 12 && chr11[j] != 0
      invariant j <= |c| && j <= First(c, DOT)
      invariant forall k :: 0 <= k < j ==> filename11[k] == c[k]
      invariant forall k :: j <= k < 12 ==> filename11[k] == SPACE
    {
      assert chr11[j] == chr11[..|c|][j] == c[j];
      if chr11[j] == DOT { break; }
      filename11[j] := chr11[j];
      j := j + 1;
    }
    assert filename11[..12] == Row(c);
  }

  /** The second copying loop, from behind the dot to position 8. */
  method CopyExtension(chr11: array<byte>, ghost c: Data, d: nat, filename11: array<byte>)
    requires chr11 != filename11 && chr11.Length == 13 && filename11.Length == 13 && |c| <= 12
    requires chr11[..|c|] == c && (forall k :: 0 <= k < |c| ==> chr11[k] != 0) && chr11[|c|] == 0
    requires d == First(c, DOT) < |c|
    modifies filename11
    ensures var x, row := Extension(c), old(filename11[..12]);
      filename11[..11] == (row[..8] + x + row[8 + |x|..])[..11]
  {
    hide First;
    ghost var row := filename11[..12];
    var j, k := d + 1, 8;
    while j < 12 && chr11[j] != 0 && k < 11
      invariant d + 1 <= j <= |c| && k == 8 + (j - d - 1) <= 11
      invariant forall m :: 8 <= m < k ==> filename11[m] == c[d + 1 + (m - 8)]
      invariant forall m :: 0 <= m < 8 || k <= m < 12 ==> filename11[m] == row[m]
    {
      assert chr11[j] == chr11[..|c|][j] == c[j];
      filename11[k] := chr11[j];
      j, k := j + 1, k + 1;
    }
    ghost var x := Extension(c);
    assert |x| == k - 8;
    forall m: nat | m < 11 ensures filename11[m] == (row[..8] + x + row[8 + |x|..])[m] {
      assert 8 <= m < k ==> filename11[m] == x[m - 8];
    }
  }

  /** fs_next_slash */
  method FsNextSlash(f: Data, filename11: array<byte>) returns (i: nat)
    requires NameLength(f) < |f| && filename11.Length == 13
    modifies filename11
    ensures i == NameLength(f)
    ensures filename11[..11] == Pack(f[..i]) && filename11[11] == 0
  {
    hide First, NameLength, Upper;
    i := 0;
    while f[i] != 0 && f[i] != SLASH
      invariant i <= NameLength(f)
      decreases NameLength(f) - i
    {
      i := i + 1;
    }
    Blank(filename11);
    var chr11 := ReadHead(f, i);
    ghost var c := Head(f[..i]);
    var j := CopyBase(chr11, c, filename11);
    if chr11[j] == DOT {
      CopyExtension(chr11, c, j, filename11);
    }
    filename11[11] := 0;
  }
  // ----- get_filename -----

  /** buf holds the zero-terminated string n. */
  ghost predicate Holds(buf: array<byte>, n: Data)
    reads buf
  {
    |n| < buf.Length && buf[..|n|] == n && buf[|n|] == 0
  }

  /** Puts the dot behind the base: over its first space, or in front of an extension shifted up by
      one. */
  method PlaceDot(buf: array<byte>, ghost e: Data) returns (l1: nat, l2: nat)
    requires buf.Length >= 13 && |e| == 11 && buf[..11] == e
    modifies buf
    ensures l1 == |Trim(e[..8])| && l2 == (if l1 == 8 then 9 else 8)
    ensures buf[..l1] == Trim(e[..8]) && buf[l1] == DOT && buf[l2..l2 + 3] == e[8..]
  {
    hide First;
    l1, l2 := 0, 8;
    var i := 0;
    while i < 8
      invariant i <= 8 && i <= First(e[..8], SPACE) && buf[..11] == e
    {
      if buf[i] == 0x20 {
        break;
      }
      assert e[..8][i] == e[i] == buf[i];
      i := i + 1;
    }
    assert i == First(e[..8], SPACE) by {
      if i < 8 { assert e[..8][i] == e[i] == buf[..11][i]; }
    }
    if i < 8 {
      buf[i] := DOT;
      l1 := i;
    } else {
      i := 11;
      while i > 8
        invariant 8 <= i <= 11
        invariant forall k :: 0 <= k < i ==> buf[k] == e[k]
        invariant forall k :: i < k <= 11 ==> buf[k] == e[k - 1]
      {
        buf[i] := buf[i - 1];
        i := i - 1;
      }
      buf[8] := DOT;
      l1, l2 := 8, 9;
    }
    assert buf[l2] == e[8] && buf[l2 + 1] == e[9] && buf[l2 + 2] == e[10];
    assert buf[l2..l2 + 3] == e[8..];
  }

  /** Moves the extension down behind the dot, up to its first space. The places overlap. */
  method MoveExtension(buf: array<byte>, l1: nat, l2: nat, ghost ext: Data) returns (i: nat)
    requires l1 < l2 && l2 + 3 <= buf.Length && |ext| == 3 && buf[l2..l2 + 3] == ext
    modifies buf
    ensures i == l1 + 1 + |Trim(ext)| && buf[l1 + 1..i] == Trim(ext)
    ensures buf[..l1 + 1] == old(buf[..l1 + 1])
  {
    hide First;
    i := l1 + 1;
    while i < l1 + 4
      invariant l1 + 1 <= i <= l1 + 4 && i - l1 - 1 <= First(ext, SPACE)
      invariant forall k :: l1 + 1 <= k < i ==> buf[k] == ext[k - l1 - 1]
      invariant forall k :: i - l1 - 1 <= k < 3 ==> buf[l2 + k] == ext[k]
      invariant buf[..l1 + 1] == old(buf[..l1 + 1])
    {
      if buf[l2 + i - l1 - 1] != 0x20 {
        buf[i] := buf[l2 + i - l1 - 1];
      } else {
        break;
      }
      i := i + 1;
    }
    FirstIs(ext, SPACE, i - l1 - 1);
    assert buf[l1 + 1..i] == ext[..i - l1 - 1];
  }

  /** get_filename */
  method GetFilename(entry: Data, buf: array<byte>)
    requires |entry| >= 11 && buf.Length >= 13
    modifies buf
    ensures Holds(buf, Unpack(entry[..11]))
  {
    hide First;
    ghost var e := entry[..11];
    var i := 0;
    while i < 11
      invariant i <= 11 && forall k :: 0 <= k < i ==> buf[k] == entry[k]
    {
      buf[i] := entry[i];
      i := i + 1;
    }
    assert buf[..11] == e;
    if buf[0] == DOT {
      if buf[1] == DOT {
        buf[2] := 0;
      } else {
        buf[1] := 0;
      }
    } else {
      Dotted(buf, e);
    }
  }

  /** The part of get_filename for names that are not dot entries. */
  method Dotted(buf: array<byte>, ghost e: Data)
    requires buf.Length >= 13 && |e| == 11 && buf[..11] == e
    modifies buf
    ensures Holds(buf, Join(Trim(e[..8]), Trim(e[8..])))
  {
    hide First;
    ghost var b, x := Trim(e[..8]), Trim(e[8..]);
    var l1, l2 := PlaceDot(buf, e);
    var i := MoveExtension(buf, l1, l2, e[8..]);
    assert buf[..l1 + 1] == b + [DOT];
    assert buf[..i] == b + [DOT] + x;
    buf[i] := 0;
    assert buf[..i] == b + [DOT] + x;
    if buf[i - 1] == DOT {
      buf[i - 1] := 0;
      assert buf[..i - 1] == (b + [DOT] + x)[..i - 1];
    }
  }
}
