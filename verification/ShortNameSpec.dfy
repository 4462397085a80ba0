/** Short (8.3) file names of kernel/fs/fat/fat.c: the 11-byte form of directory entries and the
    dotted form of paths, each as a function of the other. */
module ShortNameSpec {
  import opened SectorCache

  const SPACE: byte := 0x20
  const DOT: byte := 0x2E
  const SLASH: byte := 0x2F

  predicate Lower(b: byte)
  {
    0x61 <= b <= 0x7A
  }

  function UpperByte(b: byte): byte
  {
    if Lower(b) then b - 0x20 else b
  }

  function Upper(s: Data): (r: Data)
    ensures |r| == |s| && forall i :: 0 <= i < |s| ==> r[i] == UpperByte(s[i])
  {
    seq(|s|, i requires 0 <= i < |s| => UpperByte(s[i]))
  }

  /** The position of the first c, or the length. */
  function First(s: Data, c: byte): (i: nat)
    ensures i <= |s| && (i < |s| ==> s[i] == c)
    ensures forall j :: 0 <= j < i ==> s[j] != c
  {
    if s == [] || s[0] == c then 0 else 1 + First(s[1..], c)
  }

  /** The name in front of the first 0 or slash. */
  function NameLength(f: Data): (i: nat)
    ensures i <= |f| && (i < |f| ==> f[i] == 0 || f[i] == SLASH)
    ensures forall j :: 0 <= j < i ==> f[j] != 0 && f[j] != SLASH
  {
    if f == [] || f[0] == 0 || f[0] == SLASH then 0 else 1 + NameLength(f[1..])
  }

  function Blanks(n: nat): (s: Data)
    ensures |s| == n && forall i :: 0 <= i < n ==> s[i] == SPACE
  {
    seq(n, _ => SPACE)
  }

  function Min(a: nat, b: nat): nat
  {
    if a < b then a else b
  }

  /** The first twelve bytes of a name, in upper case (chr11). */
  function Head(n: Data): (c: Data)
    ensures |c| == Min(|n|, 12) && forall i :: 0 <= i < |c| ==> c[i] == UpperByte(n[i])
  {
    Upper(n[..Min(|n|, 12)])
  }

  /** At most three bytes behind the first dot. */
  function Extension(c: Data): (x: Data)
    ensures var d := First(c, DOT); x == if d < |c| then c[d + 1..Min(|c|, d + 4)] else []
  {
    var d := First(c, DOT);
    if d < |c| then c[d + 1..Min(|c|, d + 4)] else []
  }

  /** filename11 after fs_next_slash has read name n. */
  function Pack(n: Data): (e: Data)
    ensures |e| == 11
  {
    var c := Head(n);
    var row := c[..First(c, DOT)] + Blanks(12 - First(c, DOT));
    var x := Extension(c);
    (row[..8] + x + row[8 + |x|..])[..11]
  }

  function Trim(s: Data): Data
  {
    s[..First(s, SPACE)]
  }

  /** A base and an extension with the dot between them, which the code drops again at the end. */
  function Join(b: Data, x: Data): Data
  {
    if x == [] then b else if x[|x| - 1] == DOT then b + [DOT] + x[..|x| - 1] else b + [DOT] + x
  }

  /** The name get_filename leaves in its buffer. */
  function Unpack(e: Data): (n: Data)
    requires |e| == 11
  {
    if e[0] == DOT then (if e[1] == DOT then e[..2] else e[..1]) else Join(Trim(e[..8]), Trim(e[8..]))
  }

  // ----- which names survive -----

  function Pad(s: Data, n: nat): (r: Data)
    requires |s| <= n
    ensures |r| == n
  {
    s + Blanks(n - |s|)
  }

  predicate Without(s: Data, c: byte)
  {
    First(s, c) == |s|
  }

  /** A name a path component can be: no end of string, no slash. */
  predicate Component(n: Data)
  {
    Without(n, 0) && Without(n, SLASH)
  }

  /** A base of at most eight bytes and, behind the first dot, an extension of one to three bytes
      that does not end in a dot; no spaces. An empty base is let through. */
  predicate Short(n: Data)
  {
    var d := First(n, DOT);
    && d <= 8 && Without(n[..d], SPACE)
    && (d < |n| ==> d + 2 <= |n| <= d + 4 && Without(n[d + 1..], SPACE) && n[|n| - 1] != DOT)
  }

  lemma WithoutAll(s: Data, c: byte)
    ensures Without(s, c) <==> forall i :: 0 <= i < |s| ==> s[i] != c
  {
  }

  /** A position that only c precedes not is First. */
  lemma FirstIs(s: Data, c: byte, i: nat)
    requires i <= |s| && (i < |s| ==> s[i] == c) && forall j :: 0 <= j < i ==> s[j] != c
    ensures First(s, c) == i
  {
  }

  lemma UpperFirst(s: Data, c: byte)
    requires c < 0x41
    ensures First(Upper(s), c) == First(s, c)
  {
    var i := First(s, c);
    assert forall j :: 0 <= j < |s| ==> (Upper(s)[j] == c <==> s[j] == c);
    FirstIs(Upper(s), c, i);
  }

  lemma TrimPad(s: Data, n: nat)
    requires |s| <= n
    ensures Trim(Pad(s, n)) == Trim(s)
  {
    var i := First(s, SPACE);
    FirstIs(Pad(s, n), SPACE, i);
    assert Pad(s, n)[..i] == s[..i];
  }

  lemma TrimWithout(s: Data)
    ensures Without(s, SPACE) ==> Trim(s) == s
    ensures !Without(s, SPACE) ==> |Trim(s)| < |s|
  {
    assert s[..|s|] == s;
  }

  /** With a base of at most eight bytes, packing pads base and extension separately. */
  lemma PackParts(n: Data)
    requires First(n, DOT) <= 8
    ensures First(Head(n), DOT) == First(n, DOT)
    ensures |Extension(Head(n))| <= 3
    ensures Pack(n) == Pad(Upper(n[..First(n, DOT)]), 8) + Pad(Extension(Head(n)), 3)
  {
    hide First, Upper, Pack;
    var d, b, x := First(n, DOT), Upper(n[..First(n, DOT)]), Extension(Head(n));
    HeadDot(n);
    forall i: nat | i < 11 ensures Pack(n)[i] == (Pad(b, 8) + Pad(x, 3))[i] {
      PackAt(n, i);
    }
  }

  lemma UnpackParts(n: Data)
    requires First(n, DOT) <= 8
    ensures Unpack(Pack(n)) == Join(Trim(Upper(n[..First(n, DOT)])), Trim(Extension(Head(n))))
  {
    var d, e := First(n, DOT), Pack(n);
    var b, x := Upper(n[..d]), Extension(Head(n));
    PackParts(n);
    assert e[..8] == Pad(b, 8) && e[8..] == Pad(x, 3);
    TrimPad(b, 8);
    TrimPad(x, 3);
    assert e[0] == Pad(b, 8)[0];
    assert e[0] != DOT by {
      if d > 0 { assert n[0] != DOT && b[0] == UpperByte(n[0]); }
    }
  }

  /** A name of which more than eight bytes precede any dot is not recovered. */
  lemma LongBaseLost(n: Data)
    requires First(n, DOT) > 8
    ensures Unpack(Pack(n)) != Upper(n)
  {
    var e, c := Pack(n), Head(n);
    HeadDot(n);
    PackAt(n, 0);
    assert e[0] == c[0] != DOT;
    hide First, Upper, Pack, Join;
    var b, x := Trim(e[..8]), Trim(e[8..]);
    JoinLength(b, x);
    assert Upper(n)[|b|] == UpperByte(n[|b|]) != DOT;
  }

  /** The dot is seen in the head if it is among the first twelve bytes. */
  lemma HeadDot(n: Data)
    ensures First(Head(n), DOT) == Min(First(n, DOT), |Head(n)|)
  {
    var d, c := First(n, DOT), Head(n);
    hide First, Upper;
    assert forall j :: 0 <= j < |c| ==> (c[j] == DOT <==> n[j] == DOT);
    FirstIs(c, DOT, Min(d, |c|));
  }

  /** The bytes of filename11: the extension from 8 on, over what precedes the dot. */
  lemma PackAt(n: Data, i: nat)
    requires i < 11
    ensures var c, x := Head(n), Extension(Head(n));
      Pack(n)[i] == if 8 <= i < 8 + |x| then x[i - 8] else if i < First(c, DOT) then c[i] else SPACE
  {
    hide First, Upper;
    var c, x := Head(n), Extension(Head(n));
    var row := c[..First(c, DOT)] + Blanks(12 - First(c, DOT));
    assert row[i] == if i < First(c, DOT) then c[i] else SPACE;
    var r := row[..8] + x + row[8 + |x|..];
    assert r[i] == if 8 <= i < 8 + |x| then x[i - 8] else row[i];
    assert r[..11][i] == r[i];
  }

  lemma JoinLength(b: Data, x: Data)
    ensures |b| <= |Join(b, x)| && Join(b, x)[..|b|] == b
    ensures |Join(b, x)| > |b| ==> Join(b, x)[|b|] == DOT
    ensures x == [] ==> |Join(b, x)| == |b|
    ensures x != [] && x[|x| - 1] != DOT ==> |Join(b, x)| == |b| + 1 + |x| && Join(b, x)[|b| + 1..] == x
    ensures x != [] && x[|x| - 1] == DOT ==> |Join(b, x)| == |b| + |x|
  {
  }

  /** A name comes back from its directory form, in upper case, exactly when it is a short name. */
  lemma NameSurvivesIff(n: Data)
    ensures Unpack(Pack(n)) == Upper(n) <==> Short(n)
  {
    var d := First(n, DOT);
    if d > 8 {
      LongBaseLost(n);
    } else {
      var b, x := Upper(n[..d]), Extension(Head(n));
      PackParts(n);
      UnpackParts(n);
      UpperFirst(n[..d], SPACE);
      TrimWithout(b);
      TrimWithout(x);
      JoinLength(Trim(b), Trim(x));
      if !Without(n[..d], SPACE) {
        BrokenBaseLost(n, Trim(b), Trim(x));
      } else if d == |n| {
        assert n[..d] == n && x == [];
      } else {
        ExtensionSurvivesIff(n);
      }
    }
  }

  lemma BrokenBaseLost(n: Data, b: Data, x: Data)
    requires |b| < First(n, DOT)
    ensures Join(b, x) != Upper(n)
  {
    JoinLength(b, x);
    assert Upper(n)[|b|] == UpperByte(n[|b|]) != DOT;
  }

  lemma ExtensionSurvivesIff(n: Data)
    requires First(n, DOT) <= 8 && First(n, DOT) < |n| && Without(n[..First(n, DOT)], SPACE)
    ensures var d := First(n, DOT);
      Join(Upper(n[..d]), Trim(Extension(Head(n)))) == Upper(n) <==>
      d + 2 <= |n| <= d + 4 && Without(n[d + 1..], SPACE) && n[|n| - 1] != DOT
  {
    hide First, Join, Upper, Head, Extension, Trim;
    var d, rest := First(n, DOT), n[First(n, DOT) + 1..];
    var b, x := Upper(n[..d]), Extension(Head(n));
    ExtensionOf(n);
    if Join(b, Trim(x)) == Upper(n) {
      LengthTells(b, x, |rest|);
      assert |rest| == |x|;
      UpperExtension(x, rest);
    }
    if 1 <= |rest| <= 3 && Without(rest, SPACE) && n[|n| - 1] != DOT {
      UpperExtension(x, rest);
      TrimWithout(x);
      JoinUpper(n, d);
    }
  }

  lemma LengthTells(b: Data, x: Data, n: nat)
    requires |x| == Min(n, 3) && |Join(b, Trim(x))| == |b| + 1 + n
    ensures n == |x| > 0 && Without(x, SPACE) && x[|x| - 1] != DOT
  {
    hide Join;
    TrimWithout(x);
    JoinLength(b, Trim(x));
  }

  /** A whole extension and its upper-case form. */
  lemma UpperExtension(x: Data, rest: Data)
    requires |x| == |rest| > 0 && forall i :: 0 <= i < |x| ==> x[i] == UpperByte(rest[i])
    ensures x == Upper(rest) && (Without(x, SPACE) <==> Without(rest, SPACE))
    ensures x[|x| - 1] != DOT <==> rest[|rest| - 1] != DOT
  {
    assert x == Upper(rest);
    UpperFirst(rest, SPACE);
  }

  lemma ExtensionOf(n: Data)
    requires First(n, DOT) <= 8 && First(n, DOT) < |n|
    ensures var x, rest := Extension(Head(n)), n[First(n, DOT) + 1..];
      |x| == Min(|rest|, 3) && forall i :: 0 <= i < |x| ==> x[i] == UpperByte(rest[i])
  {
    HeadDot(n);
    hide First, Upper;
  }

  lemma JoinUpper(n: Data, d: nat)
    requires d + 1 < |n| && n[d] == DOT && n[|n| - 1] != DOT
    ensures Join(Upper(n[..d]), Upper(n[d + 1..])) == Upper(n)
  {
    hide Upper;
    var rest := n[d + 1..];
    assert Upper(rest)[|rest| - 1] == UpperByte(n[|n| - 1]);
  }

  // ----- which directory entries survive -----

  /** Base and extension are padded with spaces only, hold no lower-case letter, slash or zero; the
      base holds no dot and the extension does not end in one. */
  predicate Canonical(e: Data)
    requires |e| == 11
  {
    var b, x := Trim(e[..8]), Trim(e[8..]);
    && e == Pad(b, 8) + Pad(x, 3)
    && Without(b, DOT) && (x != [] ==> x[|x| - 1] != DOT)
    && (forall i :: 0 <= i < 11 ==> !Lower(e[i]) && e[i] != 0 && e[i] != SLASH)
  }

  /** What fs_next_slash makes of the zero-terminated name get_filename leaves. */
  function Repack(e: Data): Data
    requires |e| == 11
  {
    var u := Unpack(e);
    Pack(u[..NameLength(u)])
  }

  lemma PackBytes(n: Data)
    ensures forall i :: 0 <= i < 11 ==>
              !Lower(Pack(n)[i]) && (Component(n) ==> Pack(n)[i] != 0 && Pack(n)[i] != SLASH)
    ensures Pack(n)[0] != DOT
  {
    var c, x := Head(n), Extension(Head(n));
    hide First, Upper, Pack, Extension;
    assert forall i :: 0 <= i < |c| ==> !Lower(c[i]) && (Component(n) ==> c[i] != 0 && c[i] != SLASH) by {
      HeadBytes(n);
    }
    forall i: nat | i < 11
      ensures !Lower(Pack(n)[i]) && (Component(n) ==> Pack(n)[i] != 0 && Pack(n)[i] != SLASH)
    {
      PackAt(n, i);
      assert 8 <= i < 8 + |x| ==> x[i - 8] == c[First(c, DOT) + 1 + (i - 8)];
    }
    PackAt(n, 0);
  }

  lemma HeadBytes(n: Data)
    ensures forall i :: 0 <= i < |Head(n)| ==>
              !Lower(Head(n)[i]) && (Component(n) ==> Head(n)[i] != 0 && Head(n)[i] != SLASH)
  {
  }

  lemma UnpackBytes(e: Data)
    requires |e| == 11
    requires forall i :: 0 <= i < 11 ==> !Lower(e[i]) && e[i] != 0 && e[i] != SLASH
    ensures forall i :: 0 <= i < |Unpack(e)| ==>
              !Lower(Unpack(e)[i]) && Unpack(e)[i] != 0 && Unpack(e)[i] != SLASH
  {
    var b, x := Trim(e[..8]), Trim(e[8..]);
    assert forall i :: 0 <= i < |b| ==> b[i] == e[i];
    assert forall i :: 0 <= i < |x| ==> x[i] == e[8 + i];
  }

  lemma UpperSame(s: Data)
    requires forall i :: 0 <= i < |s| ==> !Lower(s[i])
    ensures Upper(s) == s
  {
  }

  lemma WholeName(s: Data)
    requires forall i :: 0 <= i < |s| ==> s[i] != 0 && s[i] != SLASH
    ensures NameLength(s) == |s| && s[..NameLength(s)] == s
  {
    assert s[..|s|] == s;
  }

  /** A directory entry's name comes back from its dotted form exactly when it is canonical. */
  lemma EntrySurvivesIff(e: Data)
    requires |e| == 11
    ensures Repack(e) == e <==> Canonical(e)
  {
    if Canonical(e) {
      CanonicalSurvives(e);
    }
    if Repack(e) == e {
      SurvivorCanonical(e);
    }
  }

  lemma CanonicalSurvives(e: Data)
    requires |e| == 11 && Canonical(e)
    ensures Repack(e) == e
  {
    hide First, Join, Upper, Head, Extension, Trim, NameLength, Pack;
    var b, x := Trim(e[..8]), Trim(e[8..]);
    UnpackBytes(e);
    assert e[0] != DOT by {
      assert e[0] == Pad(b, 8)[0];
      WithoutAll(b, DOT);
    }
    assert Unpack(e) == Join(b, x);
    WholeName(Join(b, x));
    PackJoin(b, x);
    assert forall i :: 0 <= i < |b| ==> b[i] == e[i];
    assert forall i :: 0 <= i < |x| ==> x[i] == e[8 + i];
    UpperSame(b);
    UpperSame(x);
  }

  lemma PackJoin(b: Data, x: Data)
    requires |b| <= 8 && |x| <= 3 && Without(b, DOT) && (x != [] ==> x[|x| - 1] != DOT)
    ensures Pack(Join(b, x)) == Pad(Upper(b), 8) + Pad(Upper(x), 3)
  {
    hide First, Upper, Head, Pack;
    var u := Join(b, x);
    JoinLength(b, x);
    WithoutAll(b, DOT);
    assert forall i :: 0 <= i < |b| ==> u[i] == b[i];
    FirstIs(u, DOT, |b|);
    PackParts(u);
    assert u[..|b|] == b;
    if x != [] {
      ExtensionOf(u);
      assert Extension(Head(u)) == Upper(x);
    } else {
      assert Extension(Head(u)) == Upper(x);
    }
  }

  lemma SurvivorCanonical(e: Data)
    requires |e| == 11 && Repack(e) == e
    ensures Canonical(e)
  {
    var v := Unpack(e)[..NameLength(Unpack(e))];
    assert Component(v) by { WithoutAll(v, 0); WithoutAll(v, SLASH); }
    PackBytes(v);
    UnpackBytes(e);
    WholeName(Unpack(e));
    assert v == Unpack(e);
    UpperSame(v);
    NameSurvivesIff(v);
    ShortPacksCanonical(v);
  }

  lemma ShortPacksCanonical(v: Data)
    requires Short(v) && Component(v)
    ensures Canonical(Pack(v))
  {
    hide First, Upper, Pack, Extension, Head, Trim, Pad;
    var d, e := First(v, DOT), Pack(v);
    var b, x := Upper(v[..d]), Extension(Head(v));
    PackBytes(v);
    PackParts(v);
    assert e[..8] == Pad(b, 8) && e[8..] == Pad(x, 3);
    TrimPad(b, 8);
    TrimPad(x, 3);
    UpperFirst(v[..d], SPACE);
    TrimWithout(b);
    WithoutAll(b, DOT);
    assert Without(x, SPACE) && (x != [] ==> x[|x| - 1] != DOT) by {
      if d < |v| { ShortExtension(v); }
    }
    TrimWithout(x);
  }

  lemma ShortExtension(v: Data)
    requires Short(v) && First(v, DOT) < |v|
    ensures var x := Extension(Head(v)); Without(x, SPACE) && (x != [] ==> x[|x| - 1] != DOT)
  {
    hide First, Upper, Head, Extension;
    var x, rest := Extension(Head(v)), v[First(v, DOT) + 1..];
    ExtensionOf(v);
    assert x == Upper(rest);
    UpperFirst(rest, SPACE);
    assert x[|x| - 1] == UpperByte(v[|v| - 1]);
  }

  // ----- both forms byte by byte -----

  /** An ASCII letter in upper case. */
  function Capital(b: byte): byte
  {
    if 0x61 <= b <= 0x7A then b - 0x20 else b
  }

  /** A name whose first dot is at d, or that has d bytes and no dot: byte i of the 11 is the name's, in
      upper case, in front of the dot; from byte 8 on the bytes behind the dot take over, as far as they
      are among the first twelve; all else is spaces. */
  lemma PackIs(n: Data, d: nat, i: nat)
    requires d <= |n| && (forall j :: 0 <= j < d ==> n[j] != 0x2E) && (d < |n| ==> n[d] == 0x2E) && i < 11
    ensures Pack(n)[i] ==
            if 8 <= i && d + i - 7 < |n| && d + i - 7 < 12 then Capital(n[d + i - 7])
            else if i < d then Capital(n[i])
            else 0x20
  {
    hide First, Upper, Pack;
    FirstIs(n, DOT, d);
    HeadDot(n);
    PackAt(n, i);
    var c, x := Head(n), Extension(Head(n));
    if First(c, DOT) < |c| && 8 <= i < 8 + |x| {
      assert x[i - 8] == c[d + 1..Min(|c|, d + 4)][i - 8] == c[d + i - 7];
    }
  }

  /** An entry with b bytes in front of the first space of its base and x in front of the first space of
      its extension: those, with a dot between them; without an extension no dot; and a dot that ends the
      extension is lost. */
  lemma UnpackIs(e: Data, b: nat, x: nat)
    requires |e| == 11 && e[0] != 0x2E && b <= 8 && x <= 3
    requires (forall i :: 0 <= i < b ==> e[i] != 0x20) && (b < 8 ==> e[b] == 0x20)
    requires (forall i :: 8 <= i < 8 + x ==> e[i] != 0x20) && (x < 3 ==> e[8 + x] == 0x20)
    ensures |Unpack(e)| == if x == 0 then b else if e[7 + x] == 0x2E then b + x else b + 1 + x
    ensures forall i :: 0 <= i < |Unpack(e)| ==>
              Unpack(e)[i] == if i < b then e[i] else if i == b then 0x2E else e[8 + (i - b - 1)]
  {
    hide Unpack, Join, First, Trim;
    UnpackParted(e, b, x);
    JoinIs(e[..b], e[8..8 + x]);
  }

  lemma UnpackParted(e: Data, b: nat, x: nat)
    requires |e| == 11 && e[0] != 0x2E && b <= 8 && x <= 3
    requires (forall i :: 0 <= i < b ==> e[i] != 0x20) && (b < 8 ==> e[b] == 0x20)
    requires (forall i :: 8 <= i < 8 + x ==> e[i] != 0x20) && (x < 3 ==> e[8 + x] == 0x20)
    ensures Unpack(e) == Join(e[..b], e[8..8 + x])
  {
    FirstIs(e[..8], SPACE, b);
    FirstIs(e[8..], SPACE, x);
    hide First, Join;
    assert Trim(e[..8]) == e[..b] && Trim(e[8..]) == e[8..8 + x];
  }

  lemma JoinIs(u: Data, v: Data)
    ensures |Join(u, v)| == if v == [] then |u| else if v[|v| - 1] == 0x2E then |u| + |v| else |u| + 1 + |v|
    ensures forall i :: 0 <= i < |Join(u, v)| ==>
              Join(u, v)[i] == if i < |u| then u[i] else if i == |u| then 0x2E else v[i - |u| - 1]
  {
  }

  /** The entries of a directory and its parent are their dots. */
  lemma DotEntries(e: Data)
    requires |e| == 11 && e[0] == 0x2E
    ensures Unpack(e) == if e[1] == 0x2E then [0x2E, 0x2E] else [0x2E]
  {
  }
}
