// How an ELF load ends, from what can be counted before it: the pages of its segments, the
// directory slots they fall into, and the frames that are left.
module ElfFate {
  import opened PageTables
  import opened ElfModel

  // The pages still to be placed, in the order of the loops.
  function PlanFrom(segs: seq<Segment>, i: nat, p: nat): seq<nat>
    requires i <= |segs|
    decreases |segs| - i, if i < |segs| && p < segs[i].Pages() then segs[i].Pages() - p else 0
  {
    if i == |segs| then []
    else if p < segs[i].Pages() then [segs[i].First() + p] + PlanFrom(segs, i, p + 1)
    else PlanFrom(segs, i + 1, 0)
  }

  function Plan(segs: seq<Segment>): seq<nat> { PlanFrom(segs, 0, 0) }

  function Slot(page: nat): nat { page / ENTRIES }

  function Slots(ps: seq<nat>): set<nat> {
    if ps == [] then {} else {Slot(ps[0])} + Slots(ps[1..])
  }

  // All pages are mapped; all but the last one, which the loader does not notice; or no frame is
  // left for a page.
  datatype Fate = AllMapped | LastUnmapped | Exhausted

  // The loops, seen as spending frames: one for a page, one more for a table that is missing.
  // When only the table is missing its frame, the page is lost and the next one finds no frame.
  function Outcome(used: nat, total: nat, tables: set<nat>, ps: seq<nat>): Fate
    decreases |ps|
  {
    if ps == [] then AllMapped
    else if used >= total then Exhausted
    else if Slot(ps[0]) in tables then Outcome(used + 1, total, tables, ps[1..])
    else if used + 1 >= total then (if |ps| == 1 then LastUnmapped else Exhausted)
    else Outcome(used + 2, total, tables + {Slot(ps[0])}, ps[1..])
  }

  // Frames that a load takes: its pages, and the slots among them without a table.
  function Need(tables: set<nat>, ps: seq<nat>): nat { |ps| + |Slots(ps) - tables| }

  lemma NeedNext(tables: set<nat>, ps: seq<nat>)
    requires ps != []
    ensures Slot(ps[0]) in tables ==> Need(tables, ps) == 1 + Need(tables, ps[1..])
    ensures Slot(ps[0]) !in tables ==> Need(tables, ps) == 2 + Need(tables + {Slot(ps[0])}, ps[1..])
  {
    OneMore(Slots(ps), Slots(ps[1..]), tables, Slot(ps[0]));
  }

  lemma OneMore(all: set<nat>, rest: set<nat>, tables: set<nat>, k: nat)
    requires all == {k} + rest
    ensures k in tables ==> |all - tables| == |rest - tables|
    ensures k !in tables ==> |all - tables| == 1 + |rest - (tables + {k})|
  {
    if k in tables {
      assert all - tables == rest - tables;
    } else {
      assert all - tables == (rest - (tables + {k})) + {k};
    }
  }

  // Every page is mapped exactly when there is nothing to place, or the frames that are left
  // suffice for the pages and the missing tables.
  lemma {:induction false} AllMappedIff(used: nat, total: nat, tables: set<nat>, ps: seq<nat>)
    ensures Outcome(used, total, tables, ps) == AllMapped <==> ps == [] || used + Need(tables, ps) <= total
    decreases |ps|
  {
    if ps != [] {
      NeedNext(tables, ps);
      if Slot(ps[0]) in tables {
        AllMappedIff(used + 1, total, tables, ps[1..]);
      } else {
        AllMappedIff(used + 2, total, tables + {Slot(ps[0])}, ps[1..]);
      }
    }
  }

  // The last page needs a table that nothing before it makes.
  predicate LastIsNew(tables: set<nat>, ps: seq<nat>) {
    && ps != [] && Slot(ps[|ps| - 1]) !in tables && Slot(ps[|ps| - 1]) !in Slots(ps[..|ps| - 1])
  }

  lemma LastIsNewNext(tables: set<nat>, ps: seq<nat>)
    requires |ps| > 1
    ensures LastIsNew(tables, ps) <==> LastIsNew(tables + {Slot(ps[0])}, ps[1..])
  {
    assert ps[..|ps| - 1][1..] == ps[1..][..|ps| - 2];
  }

  // The loader reports success with its last page unmapped exactly when it is one frame short
  // and that page needs a table of its own.
  lemma {:induction false} LastUnmappedIff(used: nat, total: nat, tables: set<nat>, ps: seq<nat>)
    ensures Outcome(used, total, tables, ps) == LastUnmapped
       <==> used + Need(tables, ps) == total + 1 && LastIsNew(tables, ps)
    decreases |ps|
  {
    if ps != [] {
      NeedNext(tables, ps);
      var k := Slot(ps[0]);
      if |ps| == 1 {
        assert ps[1..] == [] && ps[..0] == [];
      } else {
        LastIsNewNext(tables, ps);
        assert k in tables ==> tables + {k} == tables;
        if k in tables {
          LastUnmappedIff(used + 1, total, tables, ps[1..]);
        } else {
          LastUnmappedIff(used + 2, total, tables + {k}, ps[1..]);
        }
      }
    }
  }

  // One page in a slot without a table, and one frame left: reported as a success.
  lemma OneFrameShort(total: nat, tables: set<nat>, page: nat)
    requires total > 0 && Slot(page) !in tables
    ensures Outcome(total - 1, total, tables, [page]) == LastUnmapped
  {
  }

  // The frames that a load takes before it ends.
  function Takes(used: nat, total: nat, tables: set<nat>, ps: seq<nat>): nat
    decreases |ps|
  {
    if ps == [] || used >= total then 0
    else if Slot(ps[0]) in tables then 1 + Takes(used + 1, total, tables, ps[1..])
    else if used + 1 >= total then 1
    else 2 + Takes(used + 2, total, tables + {Slot(ps[0])}, ps[1..])
  }

  // All that it needs, or all that are left.
  lemma {:induction false} TakesWhatIsLeft(used: nat, total: nat, tables: set<nat>, ps: seq<nat>)
    requires used <= total
    ensures var need, left := Need(tables, ps), total - used;
      Takes(used, total, tables, ps) == if need < left then need else left
    decreases |ps|
  {
    if ps != [] {
      NeedNext(tables, ps);
      if used < total {
        if Slot(ps[0]) in tables {
          TakesWhatIsLeft(used + 1, total, tables, ps[1..]);
        } else if used + 1 < total {
          TakesWhatIsLeft(used + 2, total, tables + {Slot(ps[0])}, ps[1..]);
        }
      }
    }
  }

  // ---------------------------------------------------------------- along the loops

  // What one turn of the page loop spends.
  predicate Spent(used: nat, total: nat, tables: set<nat>, used': nat, tables': set<nat>,
                  slot: nat, ok: bool, mapped: bool) {
    && ok == (used < total)
    && (!ok ==> used' == used && tables' == tables)
    && (ok ==> mapped == (slot in tables || used + 1 < total))
    && (ok && mapped ==> tables' == tables + {slot} && used' == used + (if slot in tables then 1 else 2))
    && (ok && !mapped ==> tables' == tables && used' == used + 1)
  }

  // What one turn takes of the frames that a load takes.
  function TurnTakes(used: nat, total: nat, tables: set<nat>, slot: nat): nat {
    if used >= total then 0 else if slot in tables || used + 1 >= total then 1 else 2
  }

  lemma TurnSpends(used: nat, total: nat, tables: set<nat>, used': nat, tables': set<nat>,
                   segs: seq<Segment>, i: nat, p: nat, ok: bool, mapped: bool)
    requires i < |segs| && p < segs[i].Pages()
    requires Spent(used, total, tables, used', tables', Slot(segs[i].First() + p), ok, mapped)
    ensures used' - used == TurnTakes(used, total, tables, Slot(segs[i].First() + p))
    ensures Takes(used, total, tables, PlanFrom(segs, i, p))
         == used' - used + Takes(used', total, tables', PlanFrom(segs, i, p + 1))
    ensures !ok ==> Takes(used', total, tables', PlanFrom(segs, i, p + 1)) == 0
  {
    var page, ps, rest := segs[i].First() + p, PlanFrom(segs, i, p), PlanFrom(segs, i, p + 1);
    assert ps == [page] + rest && ps[1..] == rest;
    if Slot(page) in tables { assert tables + {Slot(page)} == tables; }
  }

  lemma TurnAffordable(used: nat, total: nat, tables: set<nat>, segs: seq<Segment>, i: nat, p: nat)
    requires i < |segs| && p < segs[i].Pages()
    ensures TurnTakes(used, total, tables, Slot(segs[i].First() + p))
         <= Takes(used, total, tables, PlanFrom(segs, i, p))
  {
    assert PlanFrom(segs, i, p)[0] == segs[i].First() + p;
  }

  // At page p of header i the load is still going to end as fate says. When a page could not be
  // mapped, it is lost, there is no frame left, and lost has no table.
  predicate OnCourse(used: nat, total: nat, tables: set<nat>, segs: seq<Segment>, i: nat, p: nat,
                     placed: bool, lost: nat, fate: Fate)
    requires i <= |segs|
  {
    if placed then Outcome(used, total, tables, PlanFrom(segs, i, p)) == fate
    else
      && used >= total && Slot(lost) !in tables
      && fate == (if PlanFrom(segs, i, p) == [] then LastUnmapped else Exhausted)
      && (PlanFrom(segs, i, p) == [] ==> Plan(segs) != [] && lost == Plan(segs)[|Plan(segs)| - 1])
  }

  // What is still to be placed ends like the whole plan.
  lemma {:induction false} PlanLast(segs: seq<Segment>, i: nat, p: nat)
    requires i <= |segs| && (i < |segs| ==> p <= segs[i].Pages()) && (i == |segs| ==> p == 0)
    ensures var ps, plan := PlanFrom(segs, i, p), Plan(segs);
      ps != [] ==> plan != [] && ps[|ps| - 1] == plan[|plan| - 1]
    decreases i, p
  {
    if p > 0 {
      PlanLast(segs, i, p - 1);
    } else if i > 0 {
      PlanLast(segs, i - 1, segs[i - 1].Pages());
    }
  }

  lemma TurnOnCourse(used: nat, total: nat, tables: set<nat>, used': nat, tables': set<nat>,
                     segs: seq<Segment>, i: nat, p: nat, placed: bool, lost: nat, fate: Fate, ok: bool, mapped: bool)
    requires i < |segs| && p < segs[i].Pages() && OnCourse(used, total, tables, segs, i, p, placed, lost, fate)
    requires Spent(used, total, tables, used', tables', Slot(segs[i].First() + p), ok, mapped)
    ensures !ok ==> fate == Exhausted && used' >= total
    ensures ok ==> placed
    ensures ok ==> OnCourse(used', total, tables', segs, i, p + 1, mapped,
                            if mapped then lost else segs[i].First() + p, fate)
  {
    var page, ps, rest := segs[i].First() + p, PlanFrom(segs, i, p), PlanFrom(segs, i, p + 1);
    assert ps == [page] + rest && ps[1..] == rest;
    PlanLast(segs, i, p);
    if Slot(page) in tables { assert tables + {Slot(page)} == tables; }
  }
}
