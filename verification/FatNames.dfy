/** 8.3 file names: from a path component to the 11 bytes of a directory entry and
    back (kernel/fs/fat/fat.c; Microsoft FAT32 File System Specification v1.03, "FAT
    Directory Structure"). */
module FatNames {
  import opened BlockCache

  const SPACE: Byte := 0x20
  const DOT: Byte := 0x2E
  const SLASH: Byte := 0x2F

  function Upper(b: Byte): Byte {
    if 0x61 <= b <= 0x7A then b - 0x20 else b
  }

  function UpperAll(s: seq<Byte>): (r: seq<Byte>)
    ensures |r| == |s| && forall i :: 0 <= i < |s| ==> r[i] == Upper(s[i])
  {
    seq(|s|, i requires 0 <= i < |s| => Upper(s[i]))
  }

  /** The first position from i on that holds b, or |s|. */
  function IndexFrom(s: seq<Byte>, b: Byte, i: nat): (k: nat)
    requires i <= |s|
    ensures i <= k <= |s| && (k < |s| ==> s[k] == b)
    ensures forall j :: i <= j < k ==> s[j] != b
    decreases |s| - i
  {
    if i == |s| || s[i] == b then i else IndexFrom(s, b, i + 1)
  }

  function IndexOf(s: seq<Byte>, b: Byte): (k: nat)
    ensures k <= |s| && (k < |s| ==> s[k] == b)
    ensures forall j :: 0 <= j < k ==> s[j] != b
  {
    IndexFrom(s, b, 0)
  }

  lemma IndexIs(s: seq<Byte>, b: Byte, k: nat)
    requires k <= |s| && (k < |s| ==> s[k] == b) && forall j :: 0 <= j < k ==> s[j] != b
    ensures IndexOf(s, b) == k
  {
  }

  /** What fs_next_slash looks at: at most twelve bytes of the component. */
  function Considered(name: seq<Byte>): (t: seq<Byte>)
    ensures |t| == if |name| < 12 then |name| else 12
  {
    UpperAll(if |name| < 12 then name else name[..12])
  }

  /** The byte at place j < 11 when the first dot is at d: the extension's, else the
      base's, else a space. */
  function PackedAt(t: seq<Byte>, d: nat, j: nat): Byte {
    if 8 <= j && d + j - 7 < |t| then t[d + j - 7] else if j < d && j < |t| then t[j] else SPACE
  }

  function PackedByte(t: seq<Byte>, j: nat): Byte {
    PackedAt(t, IndexOf(t, DOT), j)
  }

  function Packed(name: seq<Byte>): (e: seq<Byte>)
    ensures |e| == 11
  {
    seq(11, j requires 0 <= j < 11 => PackedByte(Considered(name), j))
  }

  /** The path component from the start of f: up to a slash or the end. */
  ghost predicate Component(f: seq<Byte>, n: nat) {
    && n < |f| && (f[n] == 0 || f[n] == 0x2F)
    && forall j :: 0 <= j < n ==> f[j] != 0 && f[j] != 0x2F
  }

  /** 'a' to 'z' become 'A' to 'Z', no other byte changes, and two bytes become the same
      only if they are equal or the same letter. */
  lemma UpperIs(a: Byte, b: Byte)
    ensures Upper(b) == b - (if 0x61 <= b <= 0x7A then 0x20 else 0)
    ensures Upper(a) == Upper(b) <==> a == b || (0x61 <= a <= 0x7A && a == b + 0x20) || (0x61 <= b <= 0x7A && b == a + 0x20)
  {
  }

  /** readme.txt is the entry README, two spaces, TXT. */
  lemma PackedExample()
    ensures Packed([0x72, 0x65, 0x61, 0x64, 0x6D, 0x65, 0x2E, 0x74, 0x78, 0x74])
      == [0x52, 0x45, 0x41, 0x44, 0x4D, 0x45, 0x20, 0x20, 0x54, 0x58, 0x54]
  {
    var n: seq<Byte> := [0x72, 0x65, 0x61, 0x64, 0x6D, 0x65, 0x2E, 0x74, 0x78, 0x74];
    var e: seq<Byte> := [0x52, 0x45, 0x41, 0x44, 0x4D, 0x45, 0x20, 0x20, 0x54, 0x58, 0x54];
    var t := Considered(n);
    IndexIs(t, DOT, 6);
    forall j | 0 <= j < 11 ensures Packed(n)[j] == e[j] {
      assert Packed(n)[j] == PackedAt(t, 6, j);
    }
  }

  /** chr11 holds t, then NULs. */
  ghost predicate Holds(chr11: array<Byte>, t: seq<Byte>)
    reads chr11
  {
    && chr11.Length == 13 && |t| <= 12
    && (forall k :: 0 <= k < |t| ==> chr11[k] == t[k] && t[k] != 0)
    && (forall k :: |t| <= k < 13 ==> chr11[k] == 0)
  }

  /** The first loops of fs_next_slash: the upper-cased component, NUL-padded. */
  method CopyUpper(f: seq<Byte>, n: nat) returns (chr11: array<Byte>)
    requires Component(f, n)
    ensures chr11.Length == 13 && fresh(chr11)
    ensures Holds(chr11, Considered(f[..n]))
  {
    chr11 := new Byte[13](_ => 0);
    var j := 0;
    while j < 12 && j < n
      invariant j <= 12 && j <= n
      invariant forall k :: 0 <= k < j ==> chr11[k] == Upper(f[k])
      invariant forall k :: j <= k < 13 ==> chr11[k] == 0
    {
      chr11[j] := f[j];
      if 0x61 <= chr11[j] <= 0x7A {
        chr11[j] := chr11[j] - 0x61 + 0x41;
      }
      j := j + 1;
    }
  }

  /** Spaces, then the name up to its first dot. */
  method PackBase(chr11: array<Byte>, ghost t: seq<Byte>, filename11: array<Byte>) returns (j: nat)
    requires Holds(chr11, t) && filename11.Length == 13 && filename11 != chr11
    modifies filename11
    ensures j == IndexOf(t, DOT) && filename11[12] == old(filename11[12])
    ensures forall k :: 0 <= k < 12 ==> filename11[k] == if k < j then t[k] else SPACE
  {
    j := 0;
    while j < 12
      invariant j <= 12 && filename11[12] == old(filename11[12])
      invariant forall k :: 0 <= k < j ==> filename11[k] == SPACE
    {
      filename11[j] := SPACE;
      j := j + 1;
    }
    j := 0;
    while chr11[j] != 0 && j < 12
      invariant j <= |t| && Holds(chr11, t) && filename11[12] == old(filename11[12])
      invariant forall k :: 0 <= k < j ==> t[k] != DOT
      invariant forall k :: 0 <= k < 12 ==> filename11[k] == if k < j then t[k] else SPACE
      decreases 12 - j
    {
      if chr11[j] == DOT {
        break;
      }
      filename11[j] := chr11[j];
      j := j + 1;
    }
    IndexIs(t, DOT, j);
  }

  /** The extension, after the dot at place d. */
  method PackExtension(chr11: array<Byte>, ghost t: seq<Byte>, filename11: array<Byte>, d: nat)
    requires Holds(chr11, t) && filename11.Length == 13 && filename11 != chr11 && d < |t|
    requires forall k :: 0 <= k < 12 ==> filename11[k] == if k < d then t[k] else SPACE
    modifies filename11
    ensures filename11[12] == old(filename11[12])
    ensures forall m :: 0 <= m < 11 ==> filename11[m] == PackedAt(t, d, m)
  {
    var j, k := d + 1, 8;
    while chr11[j] != 0 && j < 12 && k < 11
      invariant 8 <= k <= 11 && j == d + k - 7 && j <= |t| && Holds(chr11, t) && filename11[12] == old(filename11[12])
      invariant forall m :: 8 <= m < k ==> filename11[m] == t[d + m - 7]
      invariant forall m :: 0 <= m < 11 && !(8 <= m < k) ==> filename11[m] == if m < d then t[m] else SPACE
      decreases 11 - k
    {
      filename11[k] := chr11[j];
      j, k := j + 1, k + 1;
    }
  }

  method Pack(chr11: array<Byte>, ghost t: seq<Byte>, filename11: array<Byte>)
    requires Holds(chr11, t) && filename11.Length == 13 && filename11 != chr11
    modifies filename11
    ensures forall m :: 0 <= m < 11 ==> filename11[m] == PackedByte(t, m)
    ensures filename11[11] == 0 && filename11[12] == old(filename11[12])
  {
    hide IndexOf;
    var j := PackBase(chr11, t, filename11);
    assert j < |t| <==> chr11[j] == DOT;
    if chr11[j] == DOT {
      PackExtension(chr11, t, filename11, j);
    } else {
      forall m | 0 <= m < 11 ensures filename11[m] == PackedAt(t, j, m) { }
    }
    filename11[11] := 0;
  }

  /** fs_next_slash: the length of the component, and its 11-byte form. */
  method NextSlash(f: seq<Byte>, filename11: array<Byte>) returns (i: nat)
    requires filename11.Length == 13 && exists k :: 0 <= k < |f| && f[k] == 0
    modifies filename11
    ensures Component(f, i)
    ensures filename11[..11] == Packed(f[..i]) && filename11[11] == 0 && filename11[12] == old(filename11[12])
  {
    hide IndexOf;
    i := 0;
    while f[i] != 0 && f[i] != SLASH
      invariant i < |f| && exists k :: i <= k < |f| && f[k] == 0
      invariant forall j :: 0 <= j < i ==> f[j] != 0 && f[j] != SLASH
      decreases |f| - i
    {
      i := i + 1;
    }
    var chr11 := CopyUpper(f, i);
    Pack(chr11, Considered(f[..i]), filename11);
  }

  // ---------------------------------------------------------- from the entry

  function Base(e: seq<Byte>): seq<Byte>
    requires |e| >= 11
  {
    e[..IndexOf(e[..8], SPACE)]
  }

  function Extension(e: seq<Byte>): seq<Byte>
    requires |e| >= 11
  {
    e[8..8 + IndexOf(e[8..11], SPACE)]
  }

  function WithoutLastDot(s: seq<Byte>): seq<Byte> {
    if s != [] && s[|s| - 1] == DOT then s[..|s| - 1] else s
  }

  /** The name an entry stands for. */
  function Unpacked(e: seq<Byte>): seq<Byte>
    requires |e| >= 11
  {
    if e[0] == DOT then (if e[1] == DOT then [DOT, DOT] else [DOT])
    else WithoutLastDot(Base(e) + [DOT] + Extension(e))
  }

  /** An entry that starts with a dot stands for "." or "..", whatever follows. */
  lemma DotEntries(e: seq<Byte>)
    requires |e| >= 11 && e[0] == 0x2E
    ensures Unpacked(e) == if e[1] == 0x2E then [0x2E, 0x2E] else [0x2E]
  {
  }

  /** buf holds s and then a NUL. */
  ghost predicate HoldsString(buf: array<Byte>, s: seq<Byte>)
    reads buf
  {
    |s| < buf.Length && buf[..|s|] == s && buf[|s|] == 0
  }

  /** Where the base ends: the dot goes there, after a shift if the base fills its
      eight bytes; l2 is where the extension is now. */
  method PlaceDot(e: seq<Byte>, buf: array<Byte>) returns (l1: nat, l2: nat)
    requires |e| >= 11 && buf.Length >= 13 && buf[..11] == e[..11]
    modifies buf
    ensures l1 == IndexOf(e[..8], SPACE) && l2 == (if l1 == 8 then 9 else 8)
    ensures buf[..l1] == e[..l1] && buf[l1] == DOT
    ensures buf[l2] == e[8] && buf[l2 + 1] == e[9] && buf[l2 + 2] == e[10]
  {
    assert forall k :: 0 <= k < 11 ==> buf[k] == e[k];
    l1, l2 := 0, 8;
    var i := 0;
    while i < 8
      invariant i <= 8 && l1 == 0 && l2 == 8
      invariant forall k :: 0 <= k < 11 ==> buf[k] == e[k]
      invariant forall k :: 0 <= k < i ==> e[k] != SPACE
    {
      if buf[i] == SPACE {
        buf[i] := DOT;
        l1 := i;
        break;
      }
      i := i + 1;
    }
    IndexIs(e[..8], SPACE, i);
    if i == 8 {
      i := 11;
      while i > 8
        invariant 8 <= i <= 11
        invariant forall k :: 0 <= k <= i && k < 11 ==> buf[k] == e[k]
        invariant forall k :: i < k <= 11 ==> buf[k] == e[k - 1]
      {
        buf[i] := buf[i - 1];
        i := i - 1;
      }
      buf[8] := DOT;
      l1, l2 := 8, 9;
    }
  }

  lemma ExtensionIs(e: seq<Byte>)
    requires |e| >= 11
    ensures Extension(e) == e[8..11][..IndexOf(e[8..11], SPACE)]
  {
  }

  /** A base, a dot, and the part of x before its first space. */
  lemma Copied(buf: seq<Byte>, b: seq<Byte>, x: seq<Byte>, l1: nat, i: nat)
    requires |b| == l1 && |x| == 3 && l1 < i <= l1 + 4 && i <= |buf| && buf[l1] == DOT
    requires forall k :: 0 <= k < l1 ==> buf[k] == b[k]
    requires forall k :: l1 < k < i ==> buf[k] == x[k - l1 - 1] && buf[k] != SPACE
    requires i < l1 + 4 ==> x[i - l1 - 1] == SPACE
    ensures i == l1 + 1 + IndexOf(x, SPACE)
    ensures buf[..i] == b + [DOT] + x[..IndexOf(x, SPACE)]
  {
    var n := i - l1 - 1;
    assert x[..n] == buf[l1 + 1..i];
    forall k | 0 <= k < n ensures x[k] != SPACE { assert x[..n][k] == buf[l1 + 1..i][k] == buf[k + l1 + 1]; }
    IndexIs(x, SPACE, n);
    assert buf[..l1] == b;
    assert buf[..i] == buf[..l1] + [buf[l1]] + buf[l1 + 1..i];
  }

  /** The copy of the extension behind the dot: it never reads a byte it has already
      overwritten. */
  method CopyExtension(e: seq<Byte>, buf: array<Byte>, l1: nat, l2: nat) returns (i: nat)
    requires |e| >= 11 && buf.Length >= 13 && l1 == IndexOf(e[..8], SPACE) && l2 == (if l1 == 8 then 9 else 8)
    requires buf[..l1] == e[..l1] && buf[l1] == DOT
    requires buf[l2] == e[8] && buf[l2 + 1] == e[9] && buf[l2 + 2] == e[10]
    modifies buf
    ensures i == l1 + 1 + |Extension(e)| && buf[..i] == Base(e) + [DOT] + Extension(e)
  {
    hide IndexOf;
    ghost var b, x := e[..l1], e[8..11];
    assert x[0] == e[8] && x[1] == e[9] && x[2] == e[10];
    assert forall k :: 0 <= k < l1 ==> buf[k] == b[k];
    i := l1 + 1;
    while i < l1 + 4
      invariant l1 + 1 <= i <= l1 + 4 && buf[l1] == DOT
      invariant forall k :: 0 <= k < l1 ==> buf[k] == b[k]
      invariant forall k :: l1 < k < i ==> buf[k] == x[k - l1 - 1] && buf[k] != SPACE
      invariant forall k :: l2 + (i - l1 - 1) <= k < l2 + 3 ==> buf[k] == x[k - l2]
    {
      if buf[l2 + i - l1 - 1] != SPACE {
        buf[i] := buf[l2 + i - l1 - 1];
      } else {
        break;
      }
      i := i + 1;
    }
    ExtensionIs(e);
    assert i < l1 + 4 ==> buf[l2 + i - l1 - 1] == x[i - l1 - 1];
    Copied(buf[..], b, x, l1, i);
  }

  /** get_filename. */
  method GetFilename(e: seq<Byte>, buf: array<Byte>)
    requires |e| >= 11 && buf.Length >= 13
    modifies buf
    ensures HoldsString(buf, Unpacked(e))
  {
    var i := 0;
    while i < 11
      invariant i <= 11 && buf[..i] == e[..i]
    {
      buf[i] := e[i];
      i := i + 1;
      assert buf[..i] == buf[..i - 1] + [e[i - 1]];
    }
    assert buf[0] == buf[..11][0] && buf[1] == buf[..11][1];
    if buf[0] == DOT {
      if buf[1] == DOT {
        buf[2] := 0;
      } else {
        buf[1] := 0;
      }
    } else {
      var l1, l2 := PlaceDot(e, buf);
      i := CopyExtension(e, buf, l1, l2);
      ghost var s := Base(e) + [DOT] + Extension(e);
      assert buf[i - 1] == s[i - 1];
      buf[i] := 0;
      assert buf[..i] == s;
      if buf[i - 1] == DOT {
        buf[i - 1] := 0;
        assert buf[..i - 1] == s[..i - 1];
      }
    }
  }

  // ------------------------------------------------------------- round trips

  ghost predicate Without(s: seq<Byte>, b: Byte) {
    forall i :: 0 <= i < |s| ==> s[i] != b
  }

  /** A name of at most eight bytes without a dot, or a base of at most eight, a dot,
      and an extension of one to three bytes that does not end in a dot; no spaces. */
  ghost predicate Faithful(n: seq<Byte>) {
    var d := IndexOf(n, DOT);
    d <= 8 && Without(n, SPACE) && (d == |n| || (1 <= |n| - d - 1 <= 3 && n[|n| - 1] != DOT))
  }

  lemma UpperKeeps(n: seq<Byte>)
    ensures IndexOf(UpperAll(n), DOT) == IndexOf(n, DOT)
    ensures Without(UpperAll(n), SPACE) <==> Without(n, SPACE)
  {
    var t := UpperAll(n);
    forall i | 0 <= i < |n| ensures (t[i] == DOT <==> n[i] == DOT) && (t[i] == SPACE <==> n[i] == SPACE) { }
    IndexIs(t, DOT, IndexOf(n, DOT));
    if Without(t, SPACE) {
      forall i | 0 <= i < |n| ensures n[i] != SPACE { assert t[i] != SPACE; }
    }
  }

  lemma StripDot(b: seq<Byte>, x: seq<Byte>)
    ensures x == [] ==> WithoutLastDot(b + [DOT] + x) == b
    ensures x != [] && x[|x| - 1] != DOT ==> WithoutLastDot(b + [DOT] + x) == b + [DOT] + x
    ensures x != [] && x[|x| - 1] == DOT ==> WithoutLastDot(b + [DOT] + x) == b + [DOT] + x[..|x| - 1]
  {
    var s := b + [DOT] + x;
    if x == [] {
      assert s[..|s| - 1] == b;
    } else {
      assert s[|s| - 1] == x[|x| - 1];
      assert s[..|s| - 1] == b + [DOT] + x[..|x| - 1];
    }
  }

  /** The part of e from place p on that was filled with x and padded. */
  lemma PaddedPart(e: seq<Byte>, p: nat, n: nat, x: seq<Byte>)
    requires p + n <= |e| && |x| <= n && Without(x, SPACE)
    requires forall j :: p <= j < p + n ==> e[j] == if j - p < |x| then x[j - p] else SPACE
    ensures IndexOf(e[p..p + n], SPACE) == |x| && e[p..p + |x|] == x
  {
    hide IndexOf;
    var f := e[p..p + n];
    assert forall k :: 0 <= k < n ==> f[k] == e[p + k];
    IndexIs(f, SPACE, |x|);
  }

  lemma PackedPlaces(n: seq<Byte>, d: nat, x: seq<Byte>)
    requires d == IndexOf(n, DOT) && d <= 8 && |n| <= d + 4
    requires x == if d < |n| then UpperAll(n)[d + 1..] else []
    ensures forall j :: 0 <= j < 8 ==> Packed(n)[j] == if j < d then UpperAll(n)[j] else SPACE
    ensures forall j :: 8 <= j < 11 ==> Packed(n)[j] == if j - 8 < |x| then x[j - 8] else SPACE
  {
    hide IndexOf;
    UpperKeeps(n);
    assert Considered(n) == UpperAll(n);
    assert forall j :: 0 <= j < 11 ==> Packed(n)[j] == PackedByte(UpperAll(n), j);
  }

  /** The parts of the entry of a name that fits. */
  lemma PackedParts(n: seq<Byte>, d: nat)
    requires d == IndexOf(n, DOT) && d <= 8 && |n| <= d + 4 && Without(n, SPACE)
    ensures var t := UpperAll(n);
      && Base(Packed(n)) == t[..d]
      && Extension(Packed(n)) == if d < |n| then t[d + 1..] else []
  {
    hide IndexOf;
    hide Packed;
    var t, e := UpperAll(n), Packed(n);
    UpperKeeps(n);
    var x := if d < |n| then t[d + 1..] else [];
    PackedPlaces(n, d, x);
    PaddedPart(e, 0, 8, t[..d]);
    assert e[0..8] == e[..8] && e[0..d] == e[..d];
    PaddedPart(e, 8, 3, x);
  }

  /** The base of an entry that fs_next_slash made has no dot, and neither part has a
      space. */
  lemma PackedPlain(n: seq<Byte>)
    ensures var e := Packed(n);
      && e[0] != DOT && Without(Base(e), DOT) && Without(Base(e), SPACE) && Without(Extension(e), SPACE)
      && |Base(e)| <= 8 && |Extension(e)| <= 3
  {
    hide IndexOf;
    var e := Packed(n);
    assert forall j :: 0 <= j < 8 ==> e[j] != DOT;
    forall i | 0 <= i < |Base(e)| ensures Base(e)[i] != DOT && Base(e)[i] != SPACE {
      assert Base(e)[i] == e[..8][i] == e[i];
    }
    forall i | 0 <= i < |Extension(e)| ensures Extension(e)[i] != SPACE {
      assert Extension(e)[i] == e[8..11][i];
    }
  }

  lemma SplitAtDot(t: seq<Byte>, d: nat)
    requires d < |t| - 1 && t[d] == DOT
    ensures t == t[..d] + [DOT] + t[d + 1..] && t[d + 1..] != []
    ensures t[d + 1..][|t[d + 1..]| - 1] == t[|t| - 1]
  {
  }

  lemma NameReturns(n: seq<Byte>)
    requires Faithful(n)
    ensures Unpacked(Packed(n)) == UpperAll(n)
  {
    hide IndexOf;
    hide Packed;
    hide Base;
    hide Extension;
    hide WithoutLastDot;
    var d, t := IndexOf(n, DOT), UpperAll(n);
    PackedParts(n, d);
    PackedPlain(n);
    UpperKeeps(n);
    if d < |n| {
      StripDot(t[..d], t[d + 1..]);
      SplitAtDot(t, d);
      assert t[|t| - 1] == Upper(n[|n| - 1]) != DOT;
    } else {
      StripDot(t[..d], []);
      assert t == t[..d];
    }
  }

  /** A string with a base and an extension: where the first dot is. */
  lemma DotOf(t: seq<Byte>, b: seq<Byte>, y: seq<Byte>)
    requires t == b + [DOT] + y && Without(b, DOT)
    ensures IndexOf(t, DOT) == |b| && t[..|b|] == b && t[|b| + 1..] == y
    ensures Without(b, SPACE) && Without(y, SPACE) ==> Without(t, SPACE)
  {
    hide IndexOf;
    IndexIs(t, DOT, |b|);
    assert t[..|b|] == b && t[|b| + 1..] == y;
    forall i | 0 <= i < |t| && Without(b, SPACE) && Without(y, SPACE) ensures t[i] != SPACE {
      if i > |b| { assert t[i] == y[i - |b| - 1]; }
    }
  }

  /** A packed name returns with its own base and extension or not at all. */
  lemma ReturnedParts(n: seq<Byte>, b: seq<Byte>, y: seq<Byte>)
    requires UpperAll(n) == b + [DOT] + y && Without(b, DOT) && Without(b, SPACE) && Without(y, SPACE)
    requires |b| <= 8 && |y| <= 3
    ensures IndexOf(n, DOT) == |b| < |n| && Without(n, SPACE) && |n| == |b| + 1 + |y|
    ensures Extension(Packed(n)) == y
  {
    hide IndexOf;
    UpperKeeps(n);
    DotOf(UpperAll(n), b, y);
    PackedParts(n, |b|);
  }

  lemma ReturnedIsFaithful(n: seq<Byte>)
    requires Unpacked(Packed(n)) == UpperAll(n)
    ensures Faithful(n)
  {
    hide IndexOf;
    hide Packed;
    hide Base;
    hide Extension;
    hide WithoutLastDot;
    var e, t := Packed(n), UpperAll(n);
    var b, x := Base(e), Extension(e);
    PackedPlain(n);
    UpperKeeps(n);
    StripDot(b, x);
    if x == [] {
      IndexIs(t, DOT, |t|);
    } else if x[|x| - 1] == DOT {
      ReturnedParts(n, b, x[..|x| - 1]);
      assert false;
    } else {
      ReturnedParts(n, b, x);
      assert t[|t| - 1] == x[|x| - 1];
    }
  }

  /** get_filename gives back the upper-cased component exactly for these names. */
  lemma NameRoundTrip(n: seq<Byte>)
    ensures Unpacked(Packed(n)) == UpperAll(n) <==> Faithful(n)
  {
    if Faithful(n) { NameReturns(n); }
    if Unpacked(Packed(n)) == UpperAll(n) { ReturnedIsFaithful(n); }
  }

  /** A name that does not return: "A." comes back as "A". */
  lemma TrailingDotLost()
    ensures var n: seq<Byte> := [0x41, DOT]; !Faithful(n) && Unpacked(Packed(n)) == [0x41]
  {
    var n: seq<Byte> := [0x41, DOT];
    IndexIs(n, DOT, 1);
    PackedParts(n, 1);
    PackedPlain(n);
    StripDot([0x41], []);
  }

  /** For such names the directory search compares names without regard to case. */
  lemma SameEntryIff(m: seq<Byte>, n: seq<Byte>)
    requires Faithful(m) && Faithful(n)
    ensures Packed(m) == Packed(n) <==> UpperAll(m) == UpperAll(n)
  {
    NameReturns(m);
    NameReturns(n);
    if UpperAll(m) == UpperAll(n) {
      UpperKeeps(m);
      UpperKeeps(n);
      assert Considered(m) == UpperAll(m) && Considered(n) == UpperAll(n);
    }
  }

  // -------------------------------------------------------- comparing entries

  /** fs_cmp_filename. */
  method CmpFilename(f1: seq<Byte>, f2: seq<Byte>) returns (r: nat)
    requires |f1| >= 11 && |f2| >= 11
    ensures r == 0 <==> f1[..11] == f2[..11]
    ensures r <= 1
  {
    var i := 0;
    while i < 11
      invariant i <= 11 && forall j :: 0 <= j < i ==> f1[j] == f2[j]
    {
      if f1[i] != f2[i] {
        assert f1[..11][i] != f2[..11][i];
        return 1;
      }
      i := i + 1;
    }
    return 0;
  }

  /** s without the spaces at its end. */
  function Trimmed(s: seq<Byte>): (r: seq<Byte>)
    ensures |r| <= |s| && r == s[..|r|] && (forall j :: |r| <= j < |s| ==> s[j] == SPACE)
    ensures r != [] ==> r[|r| - 1] != SPACE
  {
    if s == [] || s[|s| - 1] != SPACE then s else Trimmed(s[..|s| - 1])
  }

  /** The bytes of a component that reach the base of its entry: at most eight before
      the first dot. */
  function BaseField(n: seq<Byte>): (r: seq<Byte>)
    ensures |r| <= 8
  {
    var t := Considered(n);
    var d := IndexOf(t, DOT);
    t[..if d < 8 then d else 8]
  }

  /** The bytes that reach its extension: at most three behind the dot, and where these
      are fewer than three, bytes of a base longer than eight. */
  function ExtensionField(n: seq<Byte>): (r: seq<Byte>)
    ensures |r| <= 3
  {
    var t := Considered(n);
    var d := IndexOf(t, DOT);
    var x := if d < |t| then t[d + 1..if d + 4 < |t| then d + 4 else |t|] else [];
    x + if 8 + |x| < d then t[8 + |x|..if d < 11 then d else 11] else []
  }

  function Padded(s: seq<Byte>, n: nat): (r: seq<Byte>)
    requires |s| <= n
    ensures |r| == n && forall j :: 0 <= j < n ==> r[j] == if j < |s| then s[j] else SPACE
  {
    s + seq(n - |s|, _ => SPACE)
  }

  ghost predicate EndsInSpace(s: seq<Byte>) {
    s != [] && s[|s| - 1] == SPACE
  }

  lemma PaddedInjective(a: seq<Byte>, b: seq<Byte>, n: nat)
    requires |a| <= n && |b| <= n && !EndsInSpace(a) && !EndsInSpace(b) && Padded(a, n) == Padded(b, n)
    ensures a == b
  {
    var p := Padded(a, n);
    assert |a| > 0 ==> p[|a| - 1] == a[|a| - 1];
    assert |b| > 0 ==> p[|b| - 1] == b[|b| - 1];
    assert a == p[..|a|] && b == p[..|b|];
  }

  lemma PaddedTrimmed(s: seq<Byte>, n: nat)
    requires |s| <= n
    ensures Padded(s, n) == Padded(Trimmed(s), n) && !EndsInSpace(Trimmed(s))
  {
    var t := Trimmed(s);
    forall j | 0 <= j < n ensures Padded(s, n)[j] == Padded(t, n)[j] {
      if j < |t| { assert t[j] == s[..|t|][j]; }
    }
  }

  lemma PaddedEqual(s: seq<Byte>, t: seq<Byte>, n: nat)
    requires |s| <= n && |t| <= n
    ensures Padded(s, n) == Padded(t, n) <==> Trimmed(s) == Trimmed(t)
  {
    hide Padded;
    PaddedTrimmed(s, n);
    PaddedTrimmed(t, n);
    if Padded(s, n) == Padded(t, n) { PaddedInjective(Trimmed(s), Trimmed(t), n); }
  }

  lemma PackedFields(n: seq<Byte>)
    ensures Packed(n) == Padded(BaseField(n), 8) + Padded(ExtensionField(n), 3)
  {
    hide IndexOf;
    var b, x, e := BaseField(n), ExtensionField(n), Packed(n);
    assert forall j :: 0 <= j < 8 ==> e[j] == if j < |b| then b[j] else SPACE;
    forall j | 8 <= j < 11 ensures e[j] == if j - 8 < |x| then x[j - 8] else SPACE { }
  }

  /** When fs_find takes two components for the same file, for any components at all:
      exactly when these fields, spaces at their ends aside, are equal. */
  lemma SameFieldsIff(m: seq<Byte>, n: seq<Byte>)
    ensures Packed(m) == Packed(n) <==>
      Trimmed(BaseField(m)) == Trimmed(BaseField(n)) && Trimmed(ExtensionField(m)) == Trimmed(ExtensionField(n))
  {
    PackedFields(m);
    PackedFields(n);
    PaddedEqual(BaseField(m), BaseField(n), 8);
    PaddedEqual(ExtensionField(m), ExtensionField(n), 3);
    assert Packed(m)[..8] == Padded(BaseField(m), 8) && Packed(m)[8..] == Padded(ExtensionField(m), 3);
    assert Packed(n)[..8] == Padded(BaseField(n), 8) && Packed(n)[8..] == Padded(ExtensionField(n), 3);
  }

  /** The fields of a component whose parts these are. */
  lemma FieldsAre(n: seq<Byte>, t: seq<Byte>, d: nat, b: seq<Byte>, x: seq<Byte>)
    requires t == Considered(n) && d == IndexOf(t, DOT)
    requires b == t[..if d < 8 then d else 8]
    requires x == (if d < |t| then t[d + 1..] else t[if 8 < d then 8 else d..]) && |x| == 3
    ensures Packed(n) == Padded(b, 8) + Padded(x, 3)
  {
    hide IndexOf;
    hide Packed;
    hide Considered;
    PackedFields(n);
    assert ExtensionField(n) == x;
  }

  lemma UpperJoin(b: seq<Byte>, x: seq<Byte>)
    ensures UpperAll(b + x) == UpperAll(b) + UpperAll(x)
  {
  }

  lemma UpperPlain(b: seq<Byte>)
    requires Without(b, DOT)
    ensures Without(UpperAll(b), DOT)
  {
  }

  lemma LongParts(m: seq<Byte>, n: seq<Byte>, c: seq<Byte>, y: seq<Byte>)
    requires Considered(m) == c + y && Considered(n) == c + [DOT] + y
    requires |c| == 8 && |y| == 3 && Without(c, DOT) && Without(y, DOT)
    ensures Packed(m) == Packed(n)
  {
    hide IndexOf;
    hide Packed;
    hide Considered;
    var t, u := c + y, c + [DOT] + y;
    IndexIs(t, DOT, 11);
    IndexIs(u, DOT, 8);
    assert t[..8] == c == u[..8];
    assert t[8..] == y == u[9..];
    FieldsAre(m, t, 11, c, y);
    FieldsAre(n, u, 8, c, y);
  }

  /** Two names for one entry: a base of eleven bytes runs into the extension. */
  lemma LongBaseCollides(b: seq<Byte>, x: seq<Byte>)
    requires |b| == 8 && |x| == 3 && Without(b, DOT) && Without(x, DOT)
    ensures Packed(b + x) == Packed(b + [DOT] + x)
  {
    hide Packed;
    UpperJoin(b, x);
    UpperJoin(b + [DOT], x);
    UpperJoin(b, [DOT]);
    UpperPlain(b);
    UpperPlain(x);
    assert UpperAll([DOT]) == [DOT];
    LongParts(b + x, b + [DOT] + x, UpperAll(b), UpperAll(x));
  }

  /** An entry's name that fs_next_slash can produce: upper case, base and extension
      padded by spaces, no dots. */
  ghost predicate EntryForm(e: seq<Byte>) {
    && |e| == 11 && Without(e, DOT)
    && (forall i :: 0 <= i < 11 ==> Upper(e[i]) == e[i])
    && (forall i :: IndexOf(e[..8], SPACE) <= i < 8 ==> e[i] == SPACE)
    && (forall i :: 8 + IndexOf(e[8..11], SPACE) <= i < 11 ==> e[i] == SPACE)
  }

  /** The other way round: a well-formed entry is found again under the name that is
      shown for it. */
  lemma EntryRoundTrip(e: seq<Byte>)
    requires EntryForm(e)
    ensures Packed(Unpacked(e)) == e
  {
    hide IndexOf;
    hide WithoutLastDot;
    hide PackedByte;
    hide Considered;
    var b, x, u := Base(e), Extension(e), Unpacked(e);
    EntryParts(e);
    StripDot(b, x);
    UnpackedPlace(u, b, x);
    ConsideredWhole(u);
    EntryPlaces(e, b, x, u);
    assert forall j :: 0 <= j < 11 ==> Packed(u)[j] == PackedByte(u, j);
  }

  /** The parts of an entry in that form, upper case and without dots, and its padding. */
  lemma EntryParts(e: seq<Byte>)
    requires EntryForm(e)
    ensures var b, x := Base(e), Extension(e);
      && e[0] != DOT && |b| <= 8 && |x| <= 3 && Without(b, DOT) && Without(x, DOT) && IsUpper(b) && IsUpper(x)
      && (forall j :: 0 <= j < 8 ==> e[j] == if j < |b| then b[j] else SPACE)
      && (forall j :: 8 <= j < 11 ==> e[j] == if j - 8 < |x| then x[j - 8] else SPACE)
  {
    hide IndexOf;
    var b, x := Base(e), Extension(e);
    assert forall i :: 0 <= i < |b| ==> b[i] == e[i];
    forall i | 0 <= i < |x| ensures Upper(x[i]) == x[i] != DOT && x[i] == e[8 + i] { assert x[i] == e[8 + i]; }
  }

  lemma ConsideredWhole(u: seq<Byte>)
    requires |u| <= 12 && UpperAll(u) == u
    ensures Considered(u) == u
  {
  }

  lemma EntryPlaces(e: seq<Byte>, b: seq<Byte>, x: seq<Byte>, u: seq<Byte>)
    requires |e| == 11 && |b| <= 8 && |x| <= 3 && |u| == (if x == [] then |b| else |b| + 1 + |x|)
    requires forall j :: 0 <= j < 8 ==> e[j] == if j < |b| then b[j] else SPACE
    requires forall j :: 8 <= j < 11 ==> e[j] == if j - 8 < |x| then x[j - 8] else SPACE
    requires IndexOf(u, DOT) == |b|
    requires forall k: nat :: |b| < k < |u| ==> k - |b| - 1 < |x| && u[k] == x[k - |b| - 1]
    requires forall j: nat :: j < |b| ==> u[j] == b[j]
    ensures forall j :: 0 <= j < 11 ==> PackedByte(u, j) == e[j]
  {
    hide IndexOf;
    forall j | 0 <= j < 11 ensures PackedByte(u, j) == e[j] {
      if 8 <= j {
        assert |b| + j - 7 < |u| <==> j - 8 < |x|;
      }
    }
  }

  ghost predicate IsUpper(s: seq<Byte>) {
    forall i :: 0 <= i < |s| ==> Upper(s[i]) == s[i]
  }

  lemma UpperSame(s: seq<Byte>)
    requires IsUpper(s)
    ensures UpperAll(s) == s
  {
  }

  /** Where fs_next_slash finds the parts of a name again. */
  lemma UnpackedPlace(u: seq<Byte>, b: seq<Byte>, x: seq<Byte>)
    requires u == if x == [] then b else b + [DOT] + x
    requires Without(b, DOT) && IsUpper(b) && IsUpper(x)
    ensures IndexOf(u, DOT) == |b| && UpperAll(u) == u
    ensures forall k: nat :: |b| < k < |u| ==> k - |b| - 1 < |x| && u[k] == x[k - |b| - 1]
    ensures forall j: nat :: j < |b| ==> u[j] == b[j]
  {
    hide IndexOf;
    hide UpperAll;
    IndexIs(u, DOT, |b|);
    forall i | 0 <= i < |u| ensures Upper(u[i]) == u[i] {
      if i < |b| { assert u[i] == b[i]; } else if i > |b| { assert u[i] == x[i - |b| - 1]; } else { assert u[i] == DOT; }
    }
    UpperSame(u);
  }
}
