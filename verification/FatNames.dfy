// 8.3 names: how FAT_ListDirectory prints an entry's 11-byte name and how FAT_FindFile turns
// a name back into 11 bytes.
module FatNames {
  import opened FatModel

  const SPACE: byte := 32
  const DOT: byte := 46
  const NAME_LENGTH: nat := 11

  predicate IsLower(c: byte) { 97 <= c <= 122 }

  function Upper(c: byte): byte {
    if IsLower(c) then c - 32 else c
  }

  // The bytes before the first one that is c, at most |s|: strchr, or the end of the string.
  function Until(s: seq<byte>, c: byte): (k: nat)
    ensures k <= |s| && c !in s[..k]
    ensures k < |s| ==> s[k] == c
  {
    if s == [] || s[0] == c then 0 else 1 + Until(s[1..], c)
  }

  // The characters of a C string.
  function CString(s: seq<byte>): seq<byte> { s[..Until(s, 0)] }

  // What FAT_ListDirectory prints for a file: the base, a dot and the extension, each up to
  // its first space.
  function Printed(n: seq<byte>): seq<byte>
    requires |n| == NAME_LENGTH
  {
    n[..8][..Until(n[..8], SPACE)] + [DOT] + n[8..][..Until(n[8..], SPACE)]
  }

  // Where the extension pointer of FAT_FindFile points: the first dot, or 11 without one.
  function ExtPointer(name: seq<byte>): nat {
    if DOT in name then Until(name, DOT) else NAME_LENGTH
  }

  function BaseChar(name: seq<byte>, i: nat): byte {
    if i < |name| && i < ExtPointer(name) then Upper(name[i]) else SPACE
  }

  function ExtChar(name: seq<byte>, i: nat): byte {
    var ext := ExtPointer(name);
    if ext != NAME_LENGTH && ext + 1 + i < |name| then Upper(name[ext + 1 + i]) else SPACE
  }

  // The 11 bytes FAT_FindFile looks for. A dot at index 11 is taken for no dot at all.
  function FatName(name: seq<byte>): (r: seq<byte>)
    ensures |r| == NAME_LENGTH
  {
    seq(NAME_LENGTH, i requires 0 <= i < NAME_LENGTH => if i < 8 then BaseChar(name, i) else ExtChar(name, i - 8))
  }

  // The extension is read behind the first dot, unless that dot is at index 11.
  lemma ExtensionBehindDot(name: seq<byte>, i: nat)
    requires DOT in name && i < 3
    ensures var dot := Until(name, DOT);
      FatName(name)[8 + i] == if dot != NAME_LENGTH && dot + 1 + i < |name| then Upper(name[dot + 1 + i]) else SPACE
  {
    assert FatName(name)[8 + i] == ExtChar(name, i);
  }

  // Padded at the end only.
  predicate PaddedAtEnd(s: seq<byte>) {
    forall i, j :: 0 <= i < j < |s| ==> s[i] == SPACE ==> s[j] == SPACE
  }

  predicate Canonical(n: seq<byte>)
    requires |n| == NAME_LENGTH
  {
    && PaddedAtEnd(n[..8]) && PaddedAtEnd(n[8..])
    && (forall i :: 0 <= i < NAME_LENGTH ==> !IsLower(n[i]) && n[i] != 0)
    && (forall i :: 0 <= i < 8 ==> n[i] != DOT)
  }

  lemma {:induction false} UntilIs(s: seq<byte>, c: byte, k: nat)
    requires k <= |s| && c !in s[..k] && (k < |s| ==> s[k] == c)
    ensures Until(s, c) == k
  {
    if k > 0 {
      assert s[..k][0] == s[0];
      assert forall i :: 0 <= i < k - 1 ==> s[1..][i] == s[..k][i + 1];
      UntilIs(s[1..], c, k - 1);
    }
  }

  // The printed text position by position.
  lemma PrintedPositions(n: seq<byte>, k: nat, l: nat)
    requires |n| == NAME_LENGTH && k == Until(n[..8], SPACE) && l == Until(n[8..], SPACE)
    ensures var t := Printed(n);
      && |t| == k + 1 + l && t[k] == DOT
      && (forall i :: 0 <= i < k ==> t[i] == n[i])
      && (forall i {:trigger t[i]} :: k < i < |t| ==> t[i] == n[8 + (i - k - 1)])
  {
  }

  // A name padded at its end has only spaces from its first space on.
  lemma PaddingFollows(s: seq<byte>)
    requires PaddedAtEnd(s)
    ensures forall i :: Until(s, SPACE) <= i < |s| ==> s[i] == SPACE
  {
  }

  // A canonical name is found again under the text it is listed with.
  lemma PrintedIsFound(n: seq<byte>)
    requires |n| == NAME_LENGTH && Canonical(n)
    ensures FatName(CString(Printed(n))) == n
  {
    var k, l := Until(n[..8], SPACE), Until(n[8..], SPACE);
    var t := Printed(n);
    PrintedPositions(n, k, l);
    UntilIs(t, 0, |t|);
    assert t[..|t|] == t;
    UntilIs(t, DOT, k);
    PaddingFollows(n[..8]);
    PaddingFollows(n[8..]);
    forall i | 0 <= i < NAME_LENGTH
      ensures FatName(t)[i] == n[i]
    {
      FoundChar(n, t, k, l, i);
    }
  }

  lemma FoundChar(n: seq<byte>, t: seq<byte>, k: nat, l: nat, i: nat)
    requires |n| == NAME_LENGTH && Canonical(n) && i < NAME_LENGTH
    requires k <= 8 && l <= 3 && |t| == k + 1 + l && ExtPointer(t) == k
    requires forall j :: 0 <= j < k ==> t[j] == n[j]
    requires forall j {:trigger t[j]} :: k < j < |t| ==> t[j] == n[8 + (j - k - 1)]
    requires forall j :: k <= j < 8 ==> n[..8][j] == SPACE
    requires forall j :: l <= j < 3 ==> n[8..][j] == SPACE
    ensures FatName(t)[i] == n[i]
  {
    assert Upper(n[i]) == n[i];
    if i < 8 {
      assert n[i] == n[..8][i] && FatName(t)[i] == BaseChar(t, i);
      assert BaseChar(t, i) == if i < k then Upper(t[i]) else SPACE;
    } else {
      var j := i - 8;
      assert n[i] == n[8..][j] && FatName(t)[i] == ExtChar(t, j);
      assert ExtChar(t, j) == if j < l then Upper(t[k + 1 + j]) else SPACE;
    }
  }

  lemma PrintedHasNoSpace(n: seq<byte>, i: nat)
    requires |n| == NAME_LENGTH && i < |Printed(n)|
    ensures Printed(n)[i] != SPACE
  {
    var b, e := n[..8], n[8..];
    var k, l := Until(b, SPACE), Until(e, SPACE);
    if i < k {
      assert Printed(n)[i] == b[..k][i];
    } else if i > k {
      assert Printed(n)[i] == e[..l][i - k - 1];
    }
  }

  // What FAT_FindFile builds from a text without spaces or NULs is always canonical.
  lemma FatNameIsCanonical(t: seq<byte>)
    requires forall i :: 0 <= i < |t| ==> t[i] != SPACE && t[i] != 0
    ensures Canonical(FatName(t))
  {
    var n := FatName(t);
    forall i | 0 <= i < 8
      ensures n[i] != DOT
    {
      if i < |t| && i < ExtPointer(t) && DOT in t { assert t[i] == t[..Until(t, DOT)][i]; }
    }
    assert forall i :: 0 <= i < 3 ==> n[8..][i] == ExtChar(t, i);
  }

  // Listing a file and looking it up agree exactly on the canonical names.
  lemma NameRoundTrip(n: seq<byte>)
    requires |n| == NAME_LENGTH
    ensures FatName(CString(Printed(n))) == n <==> Canonical(n)
  {
    if Canonical(n) {
      PrintedIsFound(n);
    } else {
      var t := CString(Printed(n));
      forall i | 0 <= i < |t|
        ensures t[i] != SPACE && t[i] != 0
      {
        PrintedHasNoSpace(n, i);
        assert t[i] in Printed(n)[..Until(Printed(n), 0)];
      }
      FatNameIsCanonical(t);
    }
  }

  // ---------------------------------------------------------------- as FAT_FindFile does it

  // The conversion loops of FAT_FindFile.
  method ConvertName(name: seq<byte>) returns (fatName: seq<byte>)
    requires 0 !in name
    ensures fatName == FatName(name)
  {
    fatName := seq(NAME_LENGTH, _ => SPACE);
    var ext := 0;
    while ext < |name| && name[ext] != DOT
      invariant ext <= |name| && DOT !in name[..ext]
    {
      ext := ext + 1;
    }
    UntilIs(name, DOT, ext);
    if ext == |name| {
      assert name[..ext] == name;
      ext := NAME_LENGTH;
    }
    assert ext == ExtPointer(name);
    var i := 0;
    while i < 8 && i < |name| && i < ext
      invariant i <= 8 && |fatName| == NAME_LENGTH
      invariant forall k :: 0 <= k < i ==> k < |name| && k < ext && fatName[k] == Upper(name[k])
      invariant forall k :: i <= k < NAME_LENGTH ==> fatName[k] == SPACE
    {
      fatName := fatName[i := Upper(name[i])];
      i := i + 1;
    }
    assert forall k :: 0 <= k < 8 ==> fatName[k] == BaseChar(name, k);
    if ext != NAME_LENGTH {
      i := 0;
      while i < 3 && ext + 1 + i < |name|
        invariant i <= 3 && |fatName| == NAME_LENGTH
        invariant forall k :: 0 <= k < 8 ==> fatName[k] == BaseChar(name, k)
        invariant forall m :: 8 <= m < 8 + i ==> fatName[m] == ExtChar(name, m - 8)
        invariant i > 0 ==> ext + i < |name|
        invariant forall k :: 8 + i <= k < NAME_LENGTH ==> fatName[k] == SPACE
      {
        fatName := fatName[i + 8 := Upper(name[ext + 1 + i])];
        i := i + 1;
      }
    }
    assert forall m :: 8 <= m < NAME_LENGTH ==> fatName[m] == ExtChar(name, m - 8);
  }
}
