// What the text of a path means, said of the text: the paths stage 2 opens, and paths of one and
// two components with and without their leading slash.
module FatPaths {
  import opened Basics
  import opened FatModel
  import opened FatNames
  import opened FatFiles
  import opened FatDirectory
  import opened FatDriver

  // The text of a file name: no slash, no NUL, and not empty.
  predicate PlainName(name: seq<byte>) { name != [] && 47 !in name && 0 !in name }

  lemma UntilEnd(s: seq<byte>)
    requires 47 !in s
    ensures Until(s, SLASH) == |s|
  {
    assert s[..|s|] == s;
    UntilIs(s, SLASH, |s|);
  }

  lemma UntilSlash(a: seq<byte>, b: seq<byte>)
    requires 47 !in a
    ensures Until(a + [47] + b, SLASH) == |a|
  {
    var s := a + [47] + b;
    assert s[..|a|] == a;
    UntilIs(s, SLASH, |a|);
  }

  // A name is one component, whether a slash leads it or not.
  lemma OneComponent(name: seq<byte>)
    requires PlainName(name)
    ensures Components(Relative([47] + name)) == [name] && Components(Relative(name)) == [name]
  {
    UntilEnd(name);
    assert ([47] + name)[1..] == name;
  }

  // Two names with a slash between them are two.
  lemma TwoComponents(dir: seq<byte>, name: seq<byte>)
    requires PlainName(dir) && PlainName(name)
    ensures Components(Relative([47] + dir + [47] + name)) == [dir, name]
    ensures Components(Relative(dir + [47] + name)) == [dir, name]
  {
    var s := dir + [47] + name;
    UntilSlash(dir, name);
    UntilEnd(name);
    assert s[..|dir|] == dir && s[|dir| + 1..] == name;
    assert Components(name) == [name];
    assert ([47] + dir + [47] + name)[1..] == s;
  }

  // Such a path leads to the entry the directory has under the name.
  lemma NameLeads(seen: Volume, v: Volume, dir: Cursor, name: seq<byte>)
    requires PlainName(name) && WellFormed(seen, dir)
    ensures Resolve(seen, v, dir, Components(Relative([47] + name))) == Named(seen, dir, FatName(name))
    ensures Resolve(seen, v, dir, Components(Relative(name))) == Named(seen, dir, FatName(name))
  {
    OneComponent(name);
  }

  // The entry a name in a directory of the root stands for.
  ghost function Under(seen: Volume, v: Volume, root: Cursor, dir: seq<byte>, name: seq<byte>): Option<Entry>
    requires WellFormed(seen, root)
  {
    match Named(seen, root, FatName(dir))
    case None => None
    case Some(e) => if WellFormed(v, Opened(v, e, 0)) then Named(v, Opened(v, e, 0), FatName(name)) else None
  }

  // And one of two components to the entry found under the first.
  lemma NamesLead(seen: Volume, v: Volume, root: Cursor, dir: seq<byte>, name: seq<byte>)
    requires PlainName(dir) && PlainName(name) && WellFormed(seen, root)
    ensures var found := Under(seen, v, root, dir, name);
      && Resolve(seen, v, root, Components(Relative([47] + dir + [47] + name))) == found
      && Resolve(seen, v, root, Components(Relative(dir + [47] + name))) == found
  {
    hide Named, FatName, WellFormed;
    TwoComponents(dir, name);
    assert [dir, name][1..] == [name];
  }

  // FAT_Open of a name in the root directory, with or without a leading slash.
  method OpenName(d: Driver, name: seq<byte>, slash: bool, ghost h: nat) returns (fd: FileData?)
    requires d.Valid() && h < |d.files| && d.NextHandle(h) && Rewound(d.root.View()) && PlainName(name)
    requires Walkable(Seen(d.v, d.root.View()), d.v, d.root.View(), [name])
    modifies d.root, d.SlotOf(h)
    ensures d.Valid() && Rewound(d.root.View()) && WellFormed(Seen(d.v, old(d.root.View())), old(d.root.View()))
    ensures match Named(Seen(d.v, old(d.root.View())), old(d.root.View()), FatName(name))
      case None => fd == null && !d.files[h].inUse
      case Some(e) => fd == d.files[h] && fd.inUse && fd.View() == Opened(d.v, e, h) && Coherent(d.v, fd.View())
  {
    hide Named, FatName, Coherent, Rewound;
    OneComponent(name);
    NameLeads(Seen(d.v, d.root.View()), d.v, d.root.View(), name);
    ghost var lost;
    fd, lost := d.Open(if slash then [SLASH] + name else name, h);
  }

  // FAT_Open of a name in a directory of the root, with or without a leading slash.
  method OpenUnder(d: Driver, dir: seq<byte>, name: seq<byte>, slash: bool, ghost h: nat) returns (fd: FileData?)
    requires d.Valid() && h < |d.files| && d.NextHandle(h) && Rewound(d.root.View())
    requires PlainName(dir) && PlainName(name)
    requires Walkable(Seen(d.v, d.root.View()), d.v, d.root.View(), [dir, name])
    modifies d.root, d.SlotOf(h)
    ensures d.Valid() && Rewound(d.root.View()) && WellFormed(Seen(d.v, old(d.root.View())), old(d.root.View()))
    ensures match Under(Seen(d.v, old(d.root.View())), d.v, old(d.root.View()), dir, name)
      case None => fd == null && !d.files[h].inUse
      case Some(e) => fd == d.files[h] && fd.inUse && fd.View() == Opened(d.v, e, h) && Coherent(d.v, fd.View())
  {
    hide Named, FatName, Coherent, Rewound;
    TwoComponents(dir, name);
    NamesLead(Seen(d.v, d.root.View()), d.v, d.root.View(), dir, name);
    ghost var lost;
    fd, lost := d.Open(if slash then [SLASH] + dir + [SLASH] + name else dir + [SLASH] + name, h);
  }

  // "kernel.bin" and "userland.elf", as stage 2 writes them behind a slash.
  const KERNEL_BIN: seq<byte> := [107, 101, 114, 110, 101, 108, 46, 98, 105, 110]
  const USERLAND_ELF: seq<byte> := [117, 115, 101, 114, 108, 97, 110, 100, 46, 101, 108, 102]

  // The lookup of a text with its first dot at place dot, character by character.
  lemma NameChars(name: seq<byte>, dot: nat, r: seq<byte>)
    requires dot < |name| && dot != 11 && |r| == 11 && 46 !in name[..dot] && name[dot] == 46
    requires forall i :: 0 <= i < 8 ==> r[i] == if i < dot then Upper(name[i]) else 32
    requires forall i :: 8 <= i < 11 ==> r[i] == if dot - 7 + i < |name| then Upper(name[dot - 7 + i]) else 32
    ensures FatName(name) == r
  {
    UntilIs(name, DOT, dot);
    assert forall i :: 0 <= i < 11 ==> FatName(name)[i] == if i < 8 then BaseChar(name, i) else ExtChar(name, i - 8);
  }

  // "KERNEL  BIN" and "USERLANDELF".
  lemma NamesInNumbers()
    ensures FatName(KERNEL_BIN) == [75, 69, 82, 78, 69, 76, 32, 32, 66, 73, 78]
    ensures FatName(USERLAND_ELF) == [85, 83, 69, 82, 76, 65, 78, 68, 69, 76, 70]
    ensures PlainName(KERNEL_BIN) && PlainName(USERLAND_ELF)
  {
    hide FatName;
    NameChars(KERNEL_BIN, 6, [75, 69, 82, 78, 69, 76, 32, 32, 66, 73, 78]);
    NameChars(USERLAND_ELF, 8, [85, 83, 69, 82, 76, 65, 78, 68, 69, 76, 70]);
  }

  // The letters a to z, and what stands beside them.
  lemma UpperInNumbers(c: byte)
    ensures c < 97 || c > 122 ==> Upper(c) == c
    ensures 97 <= c <= 122 ==> Upper(c) == c - 97 + 65
  {
  }

  // What is printed for a base and an extension that are padded with spaces to 8 and 3 bytes.
  lemma PrintedText(n: seq<byte>, base: seq<byte>, ext: seq<byte>)
    requires |n| == 11 && |base| <= 8 && |ext| <= 3 && 32 !in base && 32 !in ext
    requires n[..|base|] == base && n[8..8 + |ext|] == ext
    requires forall i :: |base| <= i < 8 || 8 + |ext| <= i < 11 ==> n[i] == 32
    ensures Printed(n) == base + [46] + ext
  {
    assert n[..8][..|base|] == base && n[8..][..|ext|] == ext;
    UntilIs(n[..8], SPACE, |base|);
    UntilIs(n[8..], SPACE, |ext|);
  }
}
