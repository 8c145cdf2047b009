// Two-level page tables on values: physical memory as words, directory and table entries as
// 32-bit numbers, and the partial map from virtual pages to frames that they describe.
module PageTables {
  import opened Basics

  const PAGE_SIZE: nat := 4096
  const ENTRIES: nat := 1024
  const WINDOW: nat := 1024     // frames in the identity-mapped first 4 MiB
  const PAGES: nat := 0x10_0000 // virtual pages in 4 GiB

  // ---------------------------------------------------------------- entries

  // The flag bits the code sets: bits 0, 1 and 2.
  datatype Attribute = Present | ReadWrite | User {
    function Value(): nat { if Present? then 1 else if ReadWrite? then 2 else 4 }
  }

  // An entry of a table in use has bit 31 clear, as frame addresses are below 2 GiB.
  predicate IsEntry(e: nat) { e < 0x8000_0000 }

  predicate Has(e: nat, a: Attribute) {
    match a
    case Present => e % 2 == 1
    case ReadWrite => e / 2 % 2 == 1
    case User => e / 4 % 2 == 1
  }

  // SET_ATTRIBUTE and CLEAR_ATTRIBUTE for one flag bit.
  function SetAttribute(e: nat, a: Attribute): nat {
    if Has(e, a) then e else e + a.Value()
  }

  function ClearAttribute(e: nat, a: Attribute): nat {
    if Has(e, a) then e - a.Value() else e
  }

  // PAGE_PHYS_ADDRESS as a frame number.
  function FrameOf(e: nat): nat { e / 4096 }

  // SET_FRAME: bits 12 to 30 are replaced, the flags and bit 31 stay.
  function SetFrame(e: nat, frame: nat): nat {
    e / 0x8000_0000 * 0x8000_0000 + frame * 4096 + e % 4096
  }

  // e is made of a frame, the bits 3 to 11, and the three flags.
  predicate Parts(e: nat, frame: nat, rest: nat, u: nat, w: nat, p: nat) {
    u < 2 && w < 2 && p < 2 && rest < 512 && e == 4096 * frame + 8 * rest + 4 * u + 2 * w + p
  }

  lemma PartsOf(e: nat) returns (frame: nat, rest: nat, u: nat, w: nat, p: nat)
    ensures Parts(e, frame, rest, u, w, p)
  {
    var h1 := e / 2;
    var h2 := h1 / 2;
    var h3 := h2 / 2;
    frame, rest, u, w, p := h3 / 512, h3 % 512, h2 % 2, h1 % 2, e % 2;
  }

  lemma FieldsOfParts(e: nat, frame: nat, rest: nat, u: nat, w: nat, p: nat)
    requires Parts(e, frame, rest, u, w, p)
    ensures FrameOf(e) == frame && Has(e, Present) == (p == 1)
    ensures Has(e, ReadWrite) == (w == 1) && Has(e, User) == (u == 1)
  {
    assert e / 2 == 2048 * frame + 4 * rest + 2 * u + w;
    assert e / 4 == 1024 * frame + 2 * rest + u;
  }

  lemma SetParts(e: nat, a: Attribute, frame: nat, rest: nat, u: nat, w: nat, p: nat)
    requires Parts(e, frame, rest, u, w, p)
    ensures Parts(SetAttribute(e, a), frame, rest, if a.User? then 1 else u, if a.ReadWrite? then 1 else w,
                  if a.Present? then 1 else p)
  {
    FieldsOfParts(e, frame, rest, u, w, p);
  }

  // Setting a flag sets it, and keeps the frame and the other flags.
  lemma SetFields(e: nat, a: Attribute, b: Attribute)
    requires IsEntry(e)
    ensures IsEntry(SetAttribute(e, a)) && FrameOf(SetAttribute(e, a)) == FrameOf(e)
    ensures Has(SetAttribute(e, a), b) == (a == b || Has(e, b))
  {
    var frame, rest, u, w, p := PartsOf(e);
    var u', w', p' := if a.User? then 1 else u, if a.ReadWrite? then 1 else w, if a.Present? then 1 else p;
    FieldsOfParts(e, frame, rest, u, w, p);
    SetParts(e, a, frame, rest, u, w, p);
    FieldsOfParts(SetAttribute(e, a), frame, rest, u', w', p');
    EntryOfParts(e, SetAttribute(e, a), frame, rest, u, w, p, u', w', p');
  }

  lemma EntryOfParts(e: nat, e': nat, frame: nat, rest: nat, u: nat, w: nat, p: nat, u': nat, w': nat, p': nat)
    requires Parts(e, frame, rest, u, w, p) && Parts(e', frame, rest, u', w', p') && IsEntry(e)
    ensures IsEntry(e')
  {
  }

  lemma ClearFields(e: nat, a: Attribute, b: Attribute)
    requires IsEntry(e)
    ensures IsEntry(ClearAttribute(e, a)) && FrameOf(ClearAttribute(e, a)) == FrameOf(e)
    ensures Has(ClearAttribute(e, a), b) == (a != b && Has(e, b))
  {
    var frame, rest, u, w, p := PartsOf(e);
    FieldsOfParts(e, frame, rest, u, w, p);
    match a
    case Present => FieldsOfParts(ClearAttribute(e, a), frame, rest, u, w, 0);
    case ReadWrite => FieldsOfParts(ClearAttribute(e, a), frame, rest, u, 0, p);
    case User => FieldsOfParts(ClearAttribute(e, a), frame, rest, 0, w, p);
  }

  lemma LowParts(e: nat, frame: nat, rest: nat, u: nat, w: nat, p: nat)
    requires Parts(e, frame, rest, u, w, p) && IsEntry(e)
    ensures e % 4096 == 8 * rest + 4 * u + 2 * w + p && e / 0x8000_0000 == 0
  {
  }

  // Setting the frame keeps the flags.
  lemma FrameFields(e: nat, frame: nat, b: Attribute)
    requires IsEntry(e) && frame < 0x8_0000
    ensures IsEntry(SetFrame(e, frame)) && FrameOf(SetFrame(e, frame)) == frame
    ensures Has(SetFrame(e, frame), b) == Has(e, b)
  {
    var f, rest, u, w, p := PartsOf(e);
    LowParts(e, f, rest, u, w, p);
    FieldsOfParts(e, f, rest, u, w, p);
    var e' := SetFrame(e, frame);
    assert e' == 4096 * frame + 8 * rest + 4 * u + 2 * w + p;
    FieldsOfParts(e', frame, rest, u, w, p);
  }

  // A directory or table entry as the mapping functions write it.
  function Mapped(e: nat, frame: nat, user: bool): nat {
    var e1 := SetAttribute(e, Present);
    SetFrame(if user then SetAttribute(SetAttribute(e1, ReadWrite), User) else e1, frame)
  }

  lemma MappedFields(e: nat, frame: nat, user: bool)
    requires IsEntry(e) && frame < 0x8_0000
    ensures var r := Mapped(e, frame, user);
      && IsEntry(r) && FrameOf(r) == frame && Has(r, Present)
      && (user ==> Has(r, ReadWrite) && Has(r, User))
  {
    forall b: Attribute
      ensures IsEntry(SetAttribute(e, Present)) && Has(SetAttribute(e, Present), b) == (b == Present || Has(e, b))
    {
      SetFields(e, Present, b);
    }
    var e1 := SetAttribute(e, Present);
    if user {
      UserFields(e1);
      forall b: Attribute { FrameFields(SetAttribute(SetAttribute(e1, ReadWrite), User), frame, b); }
    } else {
      forall b: Attribute { FrameFields(e1, frame, b); }
    }
  }

  lemma UserFields(e: nat)
    requires IsEntry(e) && Has(e, Present)
    ensures var r := SetAttribute(SetAttribute(e, ReadWrite), User);
      IsEntry(r) && Has(r, Present) && Has(r, ReadWrite) && Has(r, User)
  {
    var e1 := SetAttribute(e, ReadWrite);
    SetFields(e, ReadWrite, Present);
    SetFields(e, ReadWrite, ReadWrite);
    SetFields(e1, User, Present);
    SetFields(e1, User, ReadWrite);
    SetFields(e1, User, User);
  }

  // A directory entry for a new table: present and writable, and for user pages open to ring 3.
  function TableEntry(e: nat, frame: nat, user: bool): nat {
    var e1 := SetAttribute(SetAttribute(e, Present), ReadWrite);
    SetFrame(if user then SetAttribute(e1, User) else e1, frame)
  }

  lemma TableEntryFields(e: nat, frame: nat, user: bool)
    requires IsEntry(e) && frame < 0x8_0000
    ensures var r := TableEntry(e, frame, user);
      IsEntry(r) && FrameOf(r) == frame && Has(r, Present) && Has(r, ReadWrite) && (user ==> Has(r, User))
  {
    var e1 := SetAttribute(e, Present);
    var e2 := SetAttribute(e1, ReadWrite);
    SetFields(e, Present, Present);
    SetFields(e1, ReadWrite, Present);
    SetFields(e1, ReadWrite, ReadWrite);
    SetFields(e2, User, Present);
    SetFields(e2, User, ReadWrite);
    SetFields(e2, User, User);
    var e3 := if user then SetAttribute(e2, User) else e2;
    FrameFields(e3, frame, Present);
    FrameFields(e3, frame, ReadWrite);
    FrameFields(e3, frame, User);
  }

  // The entry unmap_page leaves: frame 0 and not present.
  function Unmapped(e: nat): nat { ClearAttribute(SetFrame(e, 0), Present) }

  lemma UnmappedFields(e: nat)
    requires IsEntry(e)
    ensures IsEntry(Unmapped(e)) && FrameOf(Unmapped(e)) == 0 && !Has(Unmapped(e), Present)
  {
    FrameFields(e, 0, Present);
    ClearFields(SetFrame(e, 0), Present, Present);
  }

  // The words that are written: the frame, the bits 3 to 11 as they were, and the flags, of
  // which present is 1, writable 2 and open to ring 3 is 4.
  lemma MappedWord(e: nat, frame: nat)
    requires IsEntry(e) && frame < 0x8_0000
    ensures Mapped(e, frame, false) == 4096 * frame + e / 2 % 2048 * 2 + 1
    ensures Mapped(e, frame, true) == 4096 * frame + e / 8 % 512 * 8 + 7
  {
    var f, rest, u, w, p := PartsOf(e);
    SetParts(e, Present, f, rest, u, w, p);
    var e1 := SetAttribute(e, Present);
    FrameWord(e1, frame, f, rest, u, w, 1);
    SetParts(e1, ReadWrite, f, rest, u, w, 1);
    var e2 := SetAttribute(e1, ReadWrite);
    SetParts(e2, User, f, rest, u, 1, 1);
    FrameWord(SetAttribute(e2, User), frame, f, rest, 1, 1, 1);
    LowWords(e, f, rest, u, w, p);
  }

  lemma TableEntryWord(e: nat, frame: nat)
    requires IsEntry(e) && frame < 0x8_0000
    ensures TableEntry(e, frame, false) == 4096 * frame + e / 4 % 1024 * 4 + 3
    ensures TableEntry(e, frame, true) == 4096 * frame + e / 8 % 512 * 8 + 7
  {
    var f, rest, u, w, p := PartsOf(e);
    SetParts(e, Present, f, rest, u, w, p);
    var e1 := SetAttribute(e, Present);
    SetParts(e1, ReadWrite, f, rest, u, w, 1);
    var e2 := SetAttribute(e1, ReadWrite);
    FrameWord(e2, frame, f, rest, u, 1, 1);
    SetParts(e2, User, f, rest, u, 1, 1);
    FrameWord(SetAttribute(e2, User), frame, f, rest, 1, 1, 1);
    LowWords(e, f, rest, u, w, p);
  }

  lemma UnmappedWord(e: nat)
    requires IsEntry(e)
    ensures Unmapped(e) == e / 2 % 2048 * 2
  {
    var f, rest, u, w, p := PartsOf(e);
    FrameWord(e, 0, f, rest, u, w, p);
    LowWords(e, f, rest, u, w, p);
    FieldsOfParts(SetFrame(e, 0), 0, rest, u, w, p);
  }

  // An entry made from nothing.
  lemma FreshWords(frame: nat)
    requires frame < 0x8_0000
    ensures Mapped(0, frame, false) == 4096 * frame + 1 && Mapped(0, frame, true) == 4096 * frame + 7
    ensures TableEntry(0, frame, false) == 4096 * frame + 3 && TableEntry(0, frame, true) == 4096 * frame + 7
  {
    MappedWord(0, frame);
    TableEntryWord(0, frame);
  }

  lemma FrameWord(e: nat, frame: nat, f: nat, rest: nat, u: nat, w: nat, p: nat)
    requires Parts(e, f, rest, u, w, p) && f < 0x8_0000
    ensures SetFrame(e, frame) == 4096 * frame + 8 * rest + 4 * u + 2 * w + p
    ensures Parts(SetFrame(e, frame), frame, rest, u, w, p)
  {
    assert e % 4096 == 8 * rest + 4 * u + 2 * w + p;
    assert e < 0x8000_0000;
  }

  lemma LowWords(e: nat, f: nat, rest: nat, u: nat, w: nat, p: nat)
    requires Parts(e, f, rest, u, w, p) && IsEntry(e)
    ensures f < 0x8_0000
    ensures e / 8 % 512 == rest && e / 4 % 1024 == 2 * rest + u && e / 2 % 2048 == 4 * rest + 2 * u + w
  {
    assert e / 8 == 512 * f + rest && e / 4 == 1024 * f + 2 * rest + u;
    assert e / 2 == 2048 * f + 4 * rest + 2 * u + w;
  }

  // ---------------------------------------------------------------- walking

  // The word of memory that holds entry i of the table in a frame.
  function Word(table: nat, i: nat): nat { table * ENTRIES + i }

  // What entry i of a table points at, when it is present.
  function Target(ram: seq<nat>, table: nat, i: nat): Option<nat>
    requires Word(table, i) < |ram|
  {
    var e := ram[Word(table, i)];
    if Has(e, Present) then Some(FrameOf(e)) else None
  }

  // The translation of a virtual page: PD_INDEX selects the table, PT_INDEX the entry in it.
  function Walk(ram: seq<nat>, pd: nat, page: nat): Option<nat>
    requires pd < WINDOW && page < PAGES && WINDOW * ENTRIES <= |ram|
  {
    match Target(ram, pd, page / ENTRIES)
    case None => None
    case Some(t) => if t < WINDOW then Target(ram, t, page % ENTRIES) else None
  }

  // The word of a page's table that translates it, when it has a table.
  function LeafWord(ram: seq<nat>, pd: nat, page: nat): Option<nat>
    requires pd < WINDOW && page < PAGES && WINDOW * ENTRIES <= |ram|
  {
    match Target(ram, pd, page / ENTRIES)
    case None => None
    case Some(t) => if t < WINDOW then Some(ram[Word(t, page % ENTRIES)]) else None
  }

  predicate EntriesOk(ram: seq<nat>, table: nat)
    requires Word(table, ENTRIES) <= |ram|
  {
    forall i :: 0 <= i < ENTRIES ==> IsEntry(ram[Word(table, i)])
  }

  // The directory and its tables lie in the identity-mapped window, in frames that are in
  // use, no two directory entries share a table, and those that point at one allow writing.
  ghost predicate WellFormed(ram: seq<nat>, pd: nat, used: set<nat>) {
    && WINDOW * ENTRIES <= |ram| && pd < WINDOW && pd in used && EntriesOk(ram, pd)
    && (forall i :: 0 <= i < ENTRIES && Target(ram, pd, i).Some? ==>
          IsTable(ram, pd, used, Target(ram, pd, i).value) && Has(ram[Word(pd, i)], ReadWrite))
    && (forall i, k :: 0 <= i < k < ENTRIES && Target(ram, pd, i).Some? ==>
          Target(ram, pd, i) != Target(ram, pd, k))
  }

  ghost predicate IsTable(ram: seq<nat>, pd: nat, used: set<nat>, t: nat)
    requires WINDOW * ENTRIES <= |ram|
  {
    t < WINDOW && t in used && t != pd && EntriesOk(ram, t)
  }

  // Frame f holds the directory or one of its tables.
  ghost predicate HoldsTable(ram: seq<nat>, pd: nat, f: nat)
    requires pd < WINDOW && WINDOW * ENTRIES <= |ram|
  {
    f == pd || exists i :: 0 <= i < ENTRIES && Target(ram, pd, i) == Some(f)
  }

  ghost predicate SameFrame(ram: seq<nat>, ram': seq<nat>, f: nat)
    requires Word(f, ENTRIES) <= |ram| && |ram'| == |ram|
  {
    forall i :: 0 <= i < ENTRIES ==> ram'[Word(f, i)] == ram[Word(f, i)]
  }

  ghost predicate SameWalk(ram: seq<nat>, ram': seq<nat>, pd: nat)
    requires pd < WINDOW && WINDOW * ENTRIES <= |ram| && |ram'| == |ram|
  {
    forall q :: 0 <= q < PAGES ==> Walk(ram', pd, q) == Walk(ram, pd, q)
  }

  // ---------------------------------------------------------------- what a write does

  // Memory that changes only outside the tables translates as before.
  lemma TablesUntouched(ram: seq<nat>, ram': seq<nat>, pd: nat, used: set<nat>, used': set<nat>)
    requires WellFormed(ram, pd, used) && |ram'| == |ram| && used <= used'
    requires forall f :: 0 <= f < WINDOW && HoldsTable(ram, pd, f) ==> SameFrame(ram, ram', f)
    ensures WellFormed(ram', pd, used') && SameWalk(ram, ram', pd) && TablesOf(ram', pd) == TablesOf(ram, pd)
    ensures forall f: nat :: HoldsTable(ram', pd, f) == HoldsTable(ram, pd, f)
  {
    assert HoldsTable(ram, pd, pd) && SameFrame(ram, ram', pd);
    forall i | 0 <= i < ENTRIES
      ensures Target(ram', pd, i) == Target(ram, pd, i)
      ensures Target(ram, pd, i).Some? ==> SameFrame(ram, ram', Target(ram, pd, i).value)
    {
      assert Target(ram, pd, i).Some? ==> HoldsTable(ram, pd, Target(ram, pd, i).value);
    }
  }

  lemma WordsApart(t: nat, i: nat, u: nat, k: nat)
    requires i < ENTRIES && k < ENTRIES && (t != u || i != k)
    ensures Word(t, i) != Word(u, k)
  {
  }

  // Writing a page's table entry changes the translation of that page and of no other.
  lemma LeafWritten(ram: seq<nat>, pd: nat, used: set<nat>, page: nat, t: nat, e: nat)
    requires WellFormed(ram, pd, used) && page < PAGES && IsEntry(e)
    requires Target(ram, pd, page / ENTRIES) == Some(t)
    ensures t < WINDOW
    ensures var ram' := ram[Word(t, page % ENTRIES) := e];
      && WellFormed(ram', pd, used)
      && Walk(ram', pd, page) == (if Has(e, Present) then Some(FrameOf(e)) else None)
      && (forall q :: 0 <= q < PAGES && q != page ==> Walk(ram', pd, q) == Walk(ram, pd, q))
      && (forall f: nat :: HoldsTable(ram', pd, f) == HoldsTable(ram, pd, f))
      && TablesOf(ram', pd) == TablesOf(ram, pd)
  {
    var j := page % ENTRIES;
    var ram' := ram[Word(t, j) := e];
    forall i | 0 <= i < ENTRIES
      ensures ram'[Word(pd, i)] == ram[Word(pd, i)]
    {
      WordsApart(t, j, pd, i);
    }
    forall u, k | 0 <= u < WINDOW && 0 <= k < ENTRIES && (u != t || k != j)
      ensures ram'[Word(u, k)] == ram[Word(u, k)]
    {
      WordsApart(t, j, u, k);
    }
    LeafKeepsShape(ram, ram', pd, used, t, j);
    forall q | 0 <= q < PAGES && q != page
      ensures Walk(ram', pd, q) == Walk(ram, pd, q)
    {
      OtherPage(ram, pd, used, page, q, t);
    }
  }

  // Another page uses another entry.
  lemma OtherPage(ram: seq<nat>, pd: nat, used: set<nat>, page: nat, q: nat, t: nat)
    requires WellFormed(ram, pd, used) && page < PAGES && q < PAGES && q != page
    requires Target(ram, pd, page / ENTRIES) == Some(t)
    ensures Target(ram, pd, q / ENTRIES) == Some(t) ==> q % ENTRIES != page % ENTRIES
  {
    var i, k := page / ENTRIES, q / ENTRIES;
    if i != k {
      assert Target(ram, pd, if i < k then i else k).Some? ==>
        Target(ram, pd, i) != Target(ram, pd, k);
    }
  }

  lemma LeafKeepsShape(ram: seq<nat>, ram': seq<nat>, pd: nat, used: set<nat>, t: nat, j: nat)
    requires WellFormed(ram, pd, used) && |ram'| == |ram| && j < ENTRIES
    requires IsTable(ram, pd, used, t) && IsEntry(ram'[Word(t, j)])
    requires forall u, k :: 0 <= u < WINDOW && 0 <= k < ENTRIES && (u != t || k != j) ==>
      ram'[Word(u, k)] == ram[Word(u, k)]
    ensures WellFormed(ram', pd, used)
    ensures forall f: nat :: HoldsTable(ram', pd, f) == HoldsTable(ram, pd, f)
  {
    assert forall i :: 0 <= i < ENTRIES ==> ram'[Word(pd, i)] == ram[Word(pd, i)];
    assert forall i :: 0 <= i < ENTRIES ==> Target(ram', pd, i) == Target(ram, pd, i);
    forall u | 0 <= u < WINDOW && EntriesOk(ram, u)
      ensures EntriesOk(ram', u)
    {
    }
  }

  // Changing flags of a directory entry, but not whether it is present nor its table.
  lemma DirectoryFlags(ram: seq<nat>, pd: nat, used: set<nat>, i: nat, e: nat)
    requires WellFormed(ram, pd, used) && i < ENTRIES && IsEntry(e)
    requires (if Has(e, Present) then Some(FrameOf(e)) else None) == Target(ram, pd, i)
    requires Has(e, Present) ==> Has(e, ReadWrite)
    ensures var ram' := ram[Word(pd, i) := e];
      && WellFormed(ram', pd, used) && SameWalk(ram, ram', pd) && TablesOf(ram', pd) == TablesOf(ram, pd)
      && (forall f: nat :: HoldsTable(ram', pd, f) == HoldsTable(ram, pd, f))
  {
    var ram' := ram[Word(pd, i) := e];
    forall u, k | 0 <= u < WINDOW && 0 <= k < ENTRIES && (u != pd || k != i)
      ensures ram'[Word(u, k)] == ram[Word(u, k)]
    {
      WordsApart(pd, i, u, k);
    }
    SameTargets(ram, ram', pd, used);
  }

  // The directory points at the same tables, and those have not changed.
  lemma SameTargets(ram: seq<nat>, ram': seq<nat>, pd: nat, used: set<nat>)
    requires WellFormed(ram, pd, used) && |ram'| == |ram| && EntriesOk(ram', pd)
    requires forall i :: 0 <= i < ENTRIES ==> Target(ram', pd, i) == Target(ram, pd, i)
    requires forall i :: 0 <= i < ENTRIES && Target(ram, pd, i).Some? ==> Has(ram'[Word(pd, i)], ReadWrite)
    requires forall u, k :: 0 <= u < WINDOW && u != pd && 0 <= k < ENTRIES ==> ram'[Word(u, k)] == ram[Word(u, k)]
    ensures WellFormed(ram', pd, used) && SameWalk(ram, ram', pd)
    ensures forall f: nat :: HoldsTable(ram', pd, f) == HoldsTable(ram, pd, f)
  {
    forall u | 0 <= u < WINDOW && u != pd && EntriesOk(ram, u)
      ensures EntriesOk(ram', u)
    {
    }
  }

  ghost predicate ZeroFrame(ram: seq<nat>, t: nat)
    requires Word(t, ENTRIES) <= |ram|
  {
    forall k :: 0 <= k < ENTRIES ==> ram[Word(t, k)] == 0
  }

  // An absent directory entry is made to point at a cleared frame that was not in use: the
  // translation of every page stays, and the frame holds a table from now on.
  lemma TableAdded(ram: seq<nat>, pd: nat, used: set<nat>, i: nat, t: nat, e: nat)
    requires WellFormed(ram, pd, used) && i < ENTRIES && Target(ram, pd, i) == None
    requires t < WINDOW && t !in used && ZeroFrame(ram, t)
    requires IsEntry(e) && Has(e, Present) && Has(e, ReadWrite) && FrameOf(e) == t
    ensures var ram' := ram[Word(pd, i) := e];
      && WellFormed(ram', pd, used + {t}) && SameWalk(ram, ram', pd) && Target(ram', pd, i) == Some(t)
      && (forall f: nat :: HoldsTable(ram', pd, f) == (f == t || HoldsTable(ram, pd, f)))
      && TablesOf(ram', pd) == TablesOf(ram, pd) + {i}
  {
    var ram' := ram[Word(pd, i) := e];
    forall u, k | 0 <= u < WINDOW && 0 <= k < ENTRIES && (u != pd || k != i)
      ensures ram'[Word(u, k)] == ram[Word(u, k)]
    {
      WordsApart(pd, i, u, k);
    }
    assert forall k :: 0 <= k < ENTRIES && k != i ==> Target(ram', pd, k) == Target(ram, pd, k);
    forall u | 0 <= u < WINDOW && u != pd && EntriesOk(ram, u)
      ensures EntriesOk(ram', u)
    {
    }
    assert EntriesOk(ram', t) && EntriesOk(ram', pd);
    forall q | 0 <= q < PAGES
      ensures Walk(ram', pd, q) == Walk(ram, pd, q)
    {
      if q / ENTRIES == i {
        assert ram'[Word(t, q % ENTRIES)] == 0;
      }
    }
    assert Target(ram', pd, i) == Some(t);
    forall f: nat
      ensures HoldsTable(ram', pd, f) == (f == t || HoldsTable(ram, pd, f))
    {
      if f != pd && f != t && (exists k :: 0 <= k < ENTRIES && Target(ram, pd, k) == Some(f)) {
        var k :| 0 <= k < ENTRIES && Target(ram, pd, k) == Some(f);
        assert Target(ram', pd, k) == Some(f);
      }
    }
  }

  // ---------------------------------------------------------------- mapping as a whole

  // From ram and used to ram' and used', exactly the translation of one page has changed.
  // Frames newly in use hold tables, and so does every frame that was written to.
  ghost predicate OnePage(ram: seq<nat>, ram': seq<nat>, pd: nat, used: set<nat>, used': set<nat>,
                          page: nat, target: Option<nat>)
    requires pd < WINDOW && page < PAGES && WINDOW * ENTRIES <= |ram|
  {
    && WellFormed(ram', pd, used') && |ram'| == |ram| && used <= used'
    && Walk(ram', pd, page) == target
    && (forall q :: 0 <= q < PAGES && q != page ==> Walk(ram', pd, q) == Walk(ram, pd, q))
    && TablesGrow(ram, ram', pd, used, used')
  }

  ghost predicate TablesGrow(ram: seq<nat>, ram': seq<nat>, pd: nat, used: set<nat>, used': set<nat>)
    requires pd < WINDOW && WINDOW * ENTRIES <= |ram| && |ram'| == |ram|
  {
    && (forall f :: f in used' && f !in used ==> HoldsTable(ram', pd, f))
    && (forall f: nat :: HoldsTable(ram, pd, f) ==> HoldsTable(ram', pd, f))
    && (forall f: nat :: HoldsTable(ram', pd, f) && f in used ==> HoldsTable(ram, pd, f))
    && (forall a :: 0 <= a < |ram| && !HoldsTable(ram', pd, a / ENTRIES) ==> ram'[a] == ram[a])
  }

  lemma TablesGrowTrans(r0: seq<nat>, r1: seq<nat>, r2: seq<nat>, pd: nat, u0: set<nat>, u1: set<nat>)
    requires pd < WINDOW && WINDOW * ENTRIES <= |r0| && |r0| == |r1| == |r2| && u0 <= u1
    requires TablesGrow(r0, r1, pd, u0, u1) && TablesGrow(r1, r2, pd, u1, u1)
    ensures TablesGrow(r0, r2, pd, u0, u1)
  {
  }

  // A write into a frame that holds a table, after which the same frames hold tables.
  lemma TableWrite(ram: seq<nat>, pd: nat, used: set<nat>, t: nat, i: nat, e: nat)
    requires pd < WINDOW && WINDOW * ENTRIES <= |ram| && t < WINDOW && i < ENTRIES
    requires HoldsTable(ram, pd, t)
    requires forall f: nat :: HoldsTable(ram[Word(t, i) := e], pd, f) == HoldsTable(ram, pd, f)
    ensures TablesGrow(ram, ram[Word(t, i) := e], pd, used, used)
  {
    assert Word(t, i) / ENTRIES == t;
  }

  // A table made available without changing any translation, then one page changed.
  lemma OnePageCompose(r0: seq<nat>, r1: seq<nat>, r2: seq<nat>, pd: nat, u0: set<nat>, u1: set<nat>,
                       page: nat, target: Option<nat>)
    requires pd < WINDOW && page < PAGES && WINDOW * ENTRIES <= |r0| && |r1| == |r0| && u0 <= u1
    requires SameWalk(r0, r1, pd) && TablesGrow(r0, r1, pd, u0, u1)
    requires OnePage(r1, r2, pd, u1, u1, page, target)
    ensures OnePage(r0, r2, pd, u0, u1, page, target)
  {
    TablesGrowTrans(r0, r1, r2, pd, u0, u1);
    forall q | 0 <= q < PAGES && q != page
      ensures Walk(r2, pd, q) == Walk(r0, pd, q)
    {
      assert Walk(r1, pd, q) == Walk(r0, pd, q);
    }
  }

  lemma LeafIsOnePage(ram: seq<nat>, pd: nat, used: set<nat>, page: nat, t: nat, e: nat)
    requires WellFormed(ram, pd, used) && page < PAGES && IsEntry(e)
    requires Target(ram, pd, page / ENTRIES) == Some(t)
    ensures t < WINDOW && OnePage(ram, ram[Word(t, page % ENTRIES) := e], pd, used, used, page,
                                  if Has(e, Present) then Some(FrameOf(e)) else None)
    ensures TablesOf(ram[Word(t, page % ENTRIES) := e], pd) == TablesOf(ram, pd)
  {
    LeafWritten(ram, pd, used, page, t, e);
    assert HoldsTable(ram, pd, t);
    TableWrite(ram, pd, used, t, page % ENTRIES, e);
  }

  // The directory slots that have a table.
  ghost function TablesOf(ram: seq<nat>, pd: nat): set<nat>
    requires pd < WINDOW && WINDOW * ENTRIES <= |ram|
  {
    set k | 0 <= k < ENTRIES && Target(ram, pd, k).Some?
  }

  // The directory entry i now has a table, and no translation has changed.
  ghost predicate TableMade(r0: seq<nat>, r1: seq<nat>, pd: nat, u0: set<nat>, u1: set<nat>, i: nat, user: bool)
    requires pd < WINDOW && i < ENTRIES && WINDOW * ENTRIES <= |r0| && |r1| == |r0|
  {
    && Target(r1, pd, i).Some? && (user ==> Has(r1[Word(pd, i)], User))
    && SameWalk(r0, r1, pd) && TablesGrow(r0, r1, pd, u0, u1) && TablesOf(r1, pd) == TablesOf(r0, pd) + {i}
  }

  // ---------------------------------------------------------------- the kernel's pages

  const KERNEL_SLOT: nat := 768           // PD_INDEX(0xC0000000)
  const KERNEL_PAGE: nat := 0xC_0000      // 0xC0000000 in pages

  // The address map of the kernel: the first 4 MiB identically, and the 4 MiB from 1 MiB on at
  // 0xC0000000.
  function KernelMap(page: nat): Option<nat> {
    if page < WINDOW then Some(page)
    else if KERNEL_PAGE <= page < KERNEL_PAGE + ENTRIES then Some(page - KERNEL_PAGE + KERNEL_FRAME)
    else None
  }

  // Its pages translate as it says: code that runs with this directory finds the kernel, and
  // reaches the frames of the window by their own addresses.
  ghost predicate KernelMapped(ram: seq<nat>, pd: nat)
    requires pd < WINDOW && WINDOW * ENTRIES <= |ram|
  {
    forall q :: 0 <= q < PAGES && KernelMap(q).Some? ==> Walk(ram, pd, q) == KernelMap(q)
  }

  // Mapping a page keeps the kernel's pages exactly when it is not one of them, or is mapped to
  // the frame it has.
  lemma KernelMapKept(r0: seq<nat>, r1: seq<nat>, pd: nat, u0: set<nat>, u1: set<nat>,
                      page: nat, target: Option<nat>)
    requires pd < WINDOW && page < PAGES && WINDOW * ENTRIES <= |r0| && KernelMapped(r0, pd)
    requires OnePage(r0, r1, pd, u0, u1, page, target)
    ensures KernelMapped(r1, pd) <==> KernelMap(page).None? || KernelMap(page) == target
  {
    forall q | 0 <= q < PAGES && q != page && KernelMap(q).Some?
      ensures Walk(r1, pd, q) == KernelMap(q)
    {
      assert Walk(r0, pd, q) == KernelMap(q);
    }
  }

  // ---------------------------------------------------------------- the words that mapping writes

  // A directory entry for a table that has just been cleared.
  ghost predicate FreshTable(r0: seq<nat>, r1: seq<nat>, pd: nat, i: nat, user: bool)
    requires pd < WINDOW && i < ENTRIES && WINDOW * ENTRIES <= |r0| && |r1| == |r0|
  {
    match Target(r1, pd, i)
    case None => false
    case Some(t) => t < WINDOW && ZeroFrame(r1, t) && r1[Word(pd, i)] == TableEntry(r0[Word(pd, i)], t, user)
  }

  // The page's table is there: as it was, open to ring 3 in addition when asked, or made anew.
  ghost predicate TableStep(r0: seq<nat>, r1: seq<nat>, pd: nat, page: nat, user: bool)
    requires pd < WINDOW && page < PAGES && WINDOW * ENTRIES <= |r0| && |r1| == |r0|
  {
    var i := page / ENTRIES;
    match LeafWord(r0, pd, page)
    case None => LeafWord(r1, pd, page) == Some(0) && FreshTable(r0, r1, pd, i, user)
    case Some(e) =>
      && LeafWord(r1, pd, page) == Some(e)
      && r1[Word(pd, i)] == if user then SetAttribute(r0[Word(pd, i)], User) else r0[Word(pd, i)]
  }

  // The page's entry is written, and the directory entry is left.
  ghost predicate LeafStep(r1: seq<nat>, r2: seq<nat>, pd: nat, page: nat, frame: nat, user: bool)
    requires pd < WINDOW && page < PAGES && WINDOW * ENTRIES <= |r1| && |r2| == |r1|
  {
    && LeafWord(r1, pd, page).Some? && LeafWord(r2, pd, page) == Some(Mapped(LeafWord(r1, pd, page).value, frame, user))
    && r2[Word(pd, page / ENTRIES)] == r1[Word(pd, page / ENTRIES)]
  }

  // The two words of a page that was mapped, made of those that were there; 0 for an entry in a
  // table that was not.
  ghost predicate Written(r0: seq<nat>, r2: seq<nat>, pd: nat, page: nat, frame: nat, user: bool)
    requires pd < WINDOW && page < PAGES && WINDOW * ENTRIES <= |r0| && |r2| == |r0|
  {
    var was, now := r0[Word(pd, page / ENTRIES)], r2[Word(pd, page / ENTRIES)];
    match LeafWord(r0, pd, page)
    case None => LeafWord(r2, pd, page) == Some(Mapped(0, frame, user)) && now == TableEntry(was, FrameOf(now), user)
    case Some(e) =>
      && LeafWord(r2, pd, page) == Some(Mapped(e, frame, user))
      && now == if user then SetAttribute(was, User) else was
  }

  lemma StepsWritten(r0: seq<nat>, r1: seq<nat>, r2: seq<nat>, pd: nat, page: nat, frame: nat, user: bool)
    requires pd < WINDOW && page < PAGES && WINDOW * ENTRIES <= |r0| && |r2| == |r1| == |r0|
    requires TableStep(r0, r1, pd, page, user) && LeafStep(r1, r2, pd, page, frame, user)
    ensures Written(r0, r2, pd, page, frame, user)
  {
    hide ZeroFrame, Mapped, TableEntry, SetAttribute;
  }

  lemma FreshIsStep(r0: seq<nat>, r1: seq<nat>, pd: nat, page: nat, user: bool)
    requires pd < WINDOW && page < PAGES && WINDOW * ENTRIES <= |r0| && |r1| == |r0|
    requires Target(r0, pd, page / ENTRIES) == None && FreshTable(r0, r1, pd, page / ENTRIES, user)
    ensures TableStep(r0, r1, pd, page, user)
  {
  }

  lemma KeptIsStep(r: seq<nat>, pd: nat, used: set<nat>, page: nat)
    requires WellFormed(r, pd, used) && page < PAGES && Target(r, pd, page / ENTRIES).Some?
    ensures TableStep(r, r, pd, page, false)
  {
  }

  lemma OpenedIsStep(r0: seq<nat>, pd: nat, used: set<nat>, page: nat, e: nat)
    requires WellFormed(r0, pd, used) && page < PAGES && Target(r0, pd, page / ENTRIES).Some?
    requires e == SetAttribute(r0[Word(pd, page / ENTRIES)], User)
    ensures TableStep(r0, r0[Word(pd, page / ENTRIES) := e], pd, page, true)
  {
    var i, t := page / ENTRIES, Target(r0, pd, page / ENTRIES).value;
    SetFields(r0[Word(pd, i)], User, Present);
    WordsApart(pd, i, t, page % ENTRIES);
  }

  lemma WrittenIsStep(r1: seq<nat>, pd: nat, used: set<nat>, page: nat, t: nat, frame: nat, user: bool)
    requires WellFormed(r1, pd, used) && page < PAGES && Target(r1, pd, page / ENTRIES) == Some(t)
    ensures t < WINDOW
    ensures var e := Mapped(r1[Word(t, page % ENTRIES)], frame, user);
      LeafStep(r1, r1[Word(t, page % ENTRIES) := e], pd, page, frame, user)
  {
    WordsApart(t, page % ENTRIES, pd, page / ENTRIES);
  }

  // A page that user code may read and write: both levels say so.
  predicate UserPage(ram: seq<nat>, pd: nat, page: nat)
    requires pd < WINDOW && page < PAGES && WINDOW * ENTRIES <= |ram|
  {
    var d := ram[Word(pd, page / ENTRIES)];
    && Has(d, Present) && Has(d, ReadWrite) && Has(d, User) && FrameOf(d) < WINDOW
    && var e := ram[Word(FrameOf(d), page % ENTRIES)]; Has(e, Present) && Has(e, ReadWrite) && Has(e, User)
  }

  // A filled table is entered into the directory: its pages translate as it says.
  lemma TableAttached(ram: seq<nat>, pd: nat, used: set<nat>, i: nat, t: nat, e: nat)
    requires WellFormed(ram, pd, used) && i < ENTRIES && Target(ram, pd, i) == None
    requires t < WINDOW && t in used && !HoldsTable(ram, pd, t) && EntriesOk(ram, t)
    requires IsEntry(e) && Has(e, Present) && Has(e, ReadWrite) && FrameOf(e) == t
    ensures var ram' := ram[Word(pd, i) := e];
      && WellFormed(ram', pd, used)
      && (forall q :: 0 <= q < PAGES ==>
            Walk(ram', pd, q) == if q / ENTRIES == i then Target(ram, t, q % ENTRIES) else Walk(ram, pd, q))
      && (forall k :: 0 <= k < ENTRIES && k != i ==> Target(ram', pd, k) == Target(ram, pd, k))
  {
    var ram' := ram[Word(pd, i) := e];
    forall u, k | 0 <= u < WINDOW && 0 <= k < ENTRIES && (u != pd || k != i)
      ensures ram'[Word(u, k)] == ram[Word(u, k)]
    {
      WordsApart(pd, i, u, k);
    }
    assert forall k :: 0 <= k < ENTRIES && k != i ==> Target(ram', pd, k) == Target(ram, pd, k);
    forall u | 0 <= u < WINDOW && u != pd && EntriesOk(ram, u)
      ensures EntriesOk(ram', u)
    {
    }
    assert Target(ram', pd, i) == Some(t) && EntriesOk(ram', pd);
    forall k | 0 <= k < ENTRIES && k != i && Target(ram', pd, k).Some?
      ensures Target(ram', pd, k) != Some(t)
    {
      assert HoldsTable(ram, pd, Target(ram, pd, k).value);
    }
  }

  // An empty directory translates nothing.
  lemma EmptyDirectory(ram: seq<nat>, pd: nat, used: set<nat>)
    requires WINDOW * ENTRIES <= |ram| && pd < WINDOW && pd in used && ZeroFrame(ram, pd)
    ensures WellFormed(ram, pd, used) && forall q :: 0 <= q < PAGES ==> Walk(ram, pd, q) == None
    ensures forall i :: 0 <= i < ENTRIES ==> Target(ram, pd, i) == None
  {
    assert forall i :: 0 <= i < ENTRIES ==> Target(ram, pd, i) == None;
  }
}
