// switch_task and task_entry_trampoline of task.asm as a small register and stack machine.
// Memory is a sequence of 32-bit words and addresses count words, so the byte offset 12 of
// Task.esp is word 3 and a 4096-byte stack has 1024 words.
module ContextModel {
  const ESP_FIELD: nat := 3
  const EFLAGS_IF: nat := 0x200

  datatype Machine = Machine(mem: seq<nat>, edi: nat, esi: nat, ebx: nat, ebp: nat, eflags: nat,
                             esp: nat, eip: nat)

  // ---------------------------------------------------------------- instructions

  function Push(m: Machine, v: nat): Machine
    requires 0 < m.esp <= |m.mem|
  {
    m.(esp := m.esp - 1, mem := m.mem[m.esp - 1 := v])
  }

  // The state after the five pushes that save a context.
  function Saved(m: Machine): (r: Machine)
    requires 5 <= m.esp <= |m.mem|
    ensures r.esp == m.esp - 5 && |r.mem| == |m.mem|
  {
    Push(Push(Push(Push(Push(m, m.eflags), m.ebp), m.ebx), m.esi), m.edi)
  }

  // The stack pointer that switch_task loads, from the Task given as its second argument.
  function StoredEsp(m: Machine): seq<nat>
    requires 5 <= m.esp && m.esp + 3 <= |m.mem| && m.mem[m.esp+1] + ESP_FIELD < |m.mem|
  {
    Saved(m).mem[m.mem[m.esp+1] + ESP_FIELD := m.esp - 5]
  }

  // The stack holds the return address and the two task pointers; there is room for the
  // pushes, and the next task's saved stack pointer lies in memory.
  predicate CanSwitch(m: Machine) {
    && 5 <= m.esp && m.esp + 3 <= |m.mem|
    && m.mem[m.esp+1] + ESP_FIELD < |m.mem| && m.mem[m.esp+2] + ESP_FIELD < |m.mem|
    && StoredEsp(m)[m.mem[m.esp+2] + ESP_FIELD] + 6 <= |m.mem|
  }

  // switch_task(prev, next), from the call to the return.
  function SwitchTask(m: Machine): Machine
    requires CanSwitch(m)
  {
    var mem := StoredEsp(m);
    var sp := mem[m.mem[m.esp+2] + ESP_FIELD];
    Machine(mem, mem[sp], mem[sp+1], mem[sp+2], mem[sp+3], mem[sp+4], sp + 6, mem[sp+5])
  }

  // The stack at the call, with the record of the caller off the words about to be pushed.
  predicate AtCall(m: Machine) {
    && 5 <= m.esp && m.esp + 3 <= |m.mem|
    && m.mem[m.esp+1] + ESP_FIELD < |m.mem| && m.mem[m.esp+2] + ESP_FIELD < |m.mem|
    && !(m.esp - 5 <= m.mem[m.esp+1] + ESP_FIELD < m.esp)
  }

  // What switch_task does, word by word: the context below the caller's stack pointer, that
  // pointer in word 3 of the caller's record, and the registers from where word 3 of the next
  // record points.
  ghost predicate Effect(m: Machine, r: Machine)
    requires AtCall(m)
  {
    var prev, next := m.mem[m.esp+1] + 3, m.mem[m.esp+2] + 3;
    && |r.mem| == |m.mem|
    && r.mem[prev] == m.esp - 5
    && r.mem[m.esp-5] == m.edi && r.mem[m.esp-4] == m.esi && r.mem[m.esp-3] == m.ebx
    && r.mem[m.esp-2] == m.ebp && r.mem[m.esp-1] == m.eflags
    && (forall a :: 0 <= a < |m.mem| && !(m.esp - 5 <= a < m.esp) && a != prev ==> r.mem[a] == m.mem[a])
    && r.mem[next] + 6 <= |m.mem| && Loaded(r, r.mem, r.mem[next])
  }

  predicate Loaded(r: Machine, mem: seq<nat>, sp: nat)
    requires sp + 6 <= |mem|
  {
    && r.edi == mem[sp] && r.esi == mem[sp+1] && r.ebx == mem[sp+2] && r.ebp == mem[sp+3]
    && r.eflags == mem[sp+4] && r.eip == mem[sp+5] && r.esp == sp + 6
  }

  // The pushes and the store, word by word.
  lemma StoredWords(m: Machine)
    requires AtCall(m)
    ensures var mem, prev := StoredEsp(m), m.mem[m.esp+1] + ESP_FIELD;
      && |mem| == |m.mem| && mem[prev] == m.esp - 5
      && mem[m.esp-5] == m.edi && mem[m.esp-4] == m.esi && mem[m.esp-3] == m.ebx
      && mem[m.esp-2] == m.ebp && mem[m.esp-1] == m.eflags
      && forall a :: 0 <= a < |m.mem| && !(m.esp - 5 <= a < m.esp) && a != prev ==> mem[a] == m.mem[a]
  {
  }

  // The word-by-word reading determines the machine: it is the one the instructions compute.
  lemma EffectIsSwitch(m: Machine, r: Machine)
    requires AtCall(m)
    ensures Effect(m, r) <==> CanSwitch(m) && r == SwitchTask(m)
  {
    StoredWords(m);
    if Effect(m, r) {
      EffectMemory(m, r, StoredEsp(m));
    }
  }

  lemma EffectMemory(m: Machine, r: Machine, mem: seq<nat>)
    requires AtCall(m) && Effect(m, r) && |mem| == |m.mem|
    requires var prev := m.mem[m.esp+1] + ESP_FIELD;
      && mem[prev] == m.esp - 5
      && mem[m.esp-5] == m.edi && mem[m.esp-4] == m.esi && mem[m.esp-3] == m.ebx
      && mem[m.esp-2] == m.ebp && mem[m.esp-1] == m.eflags
      && forall a :: 0 <= a < |m.mem| && !(m.esp - 5 <= a < m.esp) && a != prev ==> mem[a] == m.mem[a]
    ensures r.mem == mem
  {
    forall a | 0 <= a < |mem|
      ensures r.mem[a] == mem[a]
    {
      var k := a - (m.esp - 5);
      assert 0 <= k < 5 ==> k == 0 || k == 1 || k == 2 || k == 3 || k == 4;
    }
  }

  // task_entry_trampoline: sti, ret.
  function Trampoline(m: Machine): Machine
    requires m.esp < |m.mem|
  {
    m.(eflags := if m.eflags / EFLAGS_IF % 2 == 1 then m.eflags else m.eflags + EFLAGS_IF,
       eip := m.mem[m.esp], esp := m.esp + 1)
  }

  // It sets bit 9 of the flags and no other, and takes the address from the stack.
  lemma TrampolineFlags(m: Machine)
    requires m.esp < |m.mem|
    ensures var r := Trampoline(m);
      && r.eflags % 0x200 == m.eflags % 0x200 && r.eflags / 0x200 % 2 == 1 && r.eflags / 0x400 == m.eflags / 0x400
      && r == m.(eflags := r.eflags, eip := m.mem[m.esp], esp := m.esp + 1)
  {
  }

  // ---------------------------------------------------------------- tasks

  // Where a task keeps its Task record and its kernel stack, the words lo to hi - 1. For a
  // created task the stack follows the record; the idle task runs on the boot stack.
  datatype Slot = Slot(tcb: nat, lo: nat, hi: nat) {
    predicate Owns(a: nat) { a == tcb + ESP_FIELD || lo <= a < hi }
  }

  ghost predicate Disjoint(slots: seq<Slot>) {
    && (forall t :: 0 <= t < |slots| ==> !(slots[t].lo <= slots[t].tcb + ESP_FIELD < slots[t].hi))
    && (forall t, u, a: nat :: 0 <= t < u < |slots| ==> !(slots[t].Owns(a) && slots[u].Owns(a)))
  }

  ghost predicate SameWords(s: Slot, x: seq<nat>, y: seq<nat>) {
    |x| == |y| && forall a :: 0 <= a < |x| && s.Owns(a) ==> x[a] == y[a]
  }

  datatype World = World(m: Machine, cur: nat)

  // The current task calls switch_task for task next from its own stack.
  predicate Calls(slots: seq<Slot>, w: World, next: nat) {
    && w.cur < |slots| && next < |slots| && AtCall(w.m)
    && slots[w.cur].lo + 5 <= w.m.esp && w.m.esp + 3 <= slots[w.cur].hi <= |w.m.mem|
    && w.m.mem[w.m.esp+1] == slots[w.cur].tcb && w.m.mem[w.m.esp+2] == slots[next].tcb
  }

  ghost predicate Switched(slots: seq<Slot>, w: World, w': World, next: nat) {
    Calls(slots, w, next) && w'.cur == next && Effect(w.m, w'.m)
  }

  // The current task runs: its registers and memory change in any way that leaves the
  // records and stacks of the other tasks alone.
  ghost predicate Ran(slots: seq<Slot>, w: World, w': World) {
    && w'.cur == w.cur && |w'.m.mem| == |w.m.mem|
    && forall t :: 0 <= t < |slots| && t != w.cur ==> SameWords(slots[t], w.m.mem, w'.m.mem)
  }

  ghost predicate Trace(slots: seq<Slot>, ws: seq<World>) {
    forall k :: 0 <= k < |ws| - 1 ==>
      Ran(slots, ws[k], ws[k+1]) || Switched(slots, ws[k], ws[k+1], ws[k+1].cur)
  }

  // ---------------------------------------------------------------- preservation

  // What a task switched out at w finds when it runs again at r: its registers, its return
  // address, its stack pointer past that address, and its stack from there on.
  ghost predicate Resumed(slots: seq<Slot>, w: Machine, r: Machine, t: nat) {
    && t < |slots| && |r.mem| == |w.mem| && w.esp < |w.mem|
    && r.edi == w.edi && r.esi == w.esi && r.ebx == w.ebx && r.ebp == w.ebp && r.eflags == w.eflags
    && r.eip == w.mem[w.esp] && r.esp == w.esp + 1
    && forall a :: w.esp <= a < slots[t].hi && a < |w.mem| ==> r.mem[a] == w.mem[a]
  }

  // A switch writes only to the record and stack of the task that is switched out.
  lemma SwitchLeavesOthers(slots: seq<Slot>, w: World, w': World, t: nat)
    requires Disjoint(slots) && Switched(slots, w, w', w'.cur) && t < |slots| && t != w.cur
    ensures SameWords(slots[t], w.m.mem, w'.m.mem)
  {
    var s := slots[w.cur];
    assert s.Owns(s.tcb + ESP_FIELD);
    forall a | 0 <= a < |w.m.mem| && slots[t].Owns(a)
      ensures w'.m.mem[a] == w.m.mem[a]
    {
      assert !s.Owns(a);
    }
  }

  // While a task is not current its record and stack do not change.
  lemma {:induction false} ParkedUnchanged(slots: seq<Slot>, ws: seq<World>, t: nat)
    requires Disjoint(slots) && Trace(slots, ws) && ws != [] && t < |slots|
    requires forall k :: 0 <= k < |ws| - 1 ==> ws[k].cur != t
    ensures SameWords(slots[t], ws[0].m.mem, ws[|ws|-1].m.mem)
  {
    if |ws| > 1 {
      var last := |ws| - 2;
      ParkedUnchanged(slots, ws[..last+1], t);
      if !Ran(slots, ws[last], ws[last+1]) {
        SwitchLeavesOthers(slots, ws[last], ws[last+1], t);
      }
    }
  }

  // Loading a context: it depends only on the record and stack of the task switched to.
  lemma SwitchLoads(slots: seq<Slot>, w: World, w': World, frame: seq<nat>, sp: nat)
    requires Disjoint(slots) && Switched(slots, w, w', w'.cur) && w'.cur != w.cur
    requires var s := slots[w'.cur];
      && SameWords(s, frame, w.m.mem)
      && s.tcb + ESP_FIELD < |frame| && frame[s.tcb + ESP_FIELD] == sp
      && s.lo <= sp && sp + 6 <= s.hi <= |frame|
    ensures Loaded(w'.m, frame, sp)
    ensures SameWords(slots[w'.cur], frame, w'.m.mem)
  {
    SwitchLeavesOthers(slots, w, w', w'.cur);
    var s := slots[w'.cur];
    assert s.Owns(s.tcb + ESP_FIELD);
    assert forall k :: sp <= k < sp + 6 ==> s.Owns(k);
  }

  // Over any run: a task that calls switch_task in one world and is next made current in a
  // later one resumes with the registers, return address and stack it had when it called.
  lemma ContextPreserved(slots: seq<Slot>, ws: seq<World>, t: nat)
    requires Disjoint(slots) && Trace(slots, ws) && |ws| >= 3 && t < |slots|
    requires ws[0].cur == t && Switched(slots, ws[0], ws[1], ws[1].cur)
    requires forall k :: 1 <= k < |ws| - 1 ==> ws[k].cur != t
    requires Switched(slots, ws[|ws|-2], ws[|ws|-1], t)
    ensures Resumed(slots, ws[0].m, ws[|ws|-1].m, t)
  {
    var parked := ws[1..|ws|-1];
    TraceMiddle(slots, ws);
    ParkedUnchanged(slots, parked, t);
    Restored(slots, ws[0], ws[1], ws[|ws|-2], ws[|ws|-1]);
  }

  lemma TraceMiddle(slots: seq<Slot>, ws: seq<World>)
    requires Trace(slots, ws) && |ws| >= 3
    ensures Trace(slots, ws[1..|ws|-1])
  {
    var parked := ws[1..|ws|-1];
    forall k | 0 <= k < |parked| - 1
      ensures Ran(slots, parked[k], parked[k+1]) || Switched(slots, parked[k], parked[k+1], parked[k+1].cur)
    {
      assert parked[k] == ws[k+1] && parked[k+1] == ws[k+2];
    }
  }

  // Switched out from a to b, parked until c, switched in from c to d.
  lemma Restored(slots: seq<Slot>, a: World, b: World, c: World, d: World)
    requires Disjoint(slots) && Switched(slots, a, b, b.cur) && Switched(slots, c, d, d.cur)
    requires d.cur == a.cur && c.cur != a.cur
    requires SameWords(slots[a.cur], b.m.mem, c.m.mem)
    ensures Resumed(slots, a.m, d.m, a.cur)
  {
    SwitchLoads(slots, c, d, b.m.mem, a.m.esp - 5);
    StackKept(slots, a, b, d.m.mem);
    ResumedFrom(slots, a, b, d.m);
  }

  lemma ResumedFrom(slots: seq<Slot>, a: World, b: World, r: Machine)
    requires Switched(slots, a, b, b.cur) && |r.mem| == |a.m.mem|
    requires a.m.esp + 1 <= |b.m.mem| && Loaded(r, b.m.mem, a.m.esp - 5)
    requires forall x :: a.m.esp <= x < slots[a.cur].hi ==> r.mem[x] == a.m.mem[x]
    requires b.m.mem[a.m.esp] == a.m.mem[a.m.esp]
    ensures Resumed(slots, a.m, r, a.cur)
  {
  }

  lemma StackKept(slots: seq<Slot>, a: World, b: World, mem: seq<nat>)
    requires Disjoint(slots) && Switched(slots, a, b, b.cur) && SameWords(slots[a.cur], b.m.mem, mem)
    ensures forall x :: a.m.esp <= x < slots[a.cur].hi ==> mem[x] == a.m.mem[x] == b.m.mem[x]
  {
    forall x | a.m.esp <= x < slots[a.cur].hi
      ensures mem[x] == a.m.mem[x] == b.m.mem[x]
    {
      assert slots[a.cur].Owns(x);
    }
  }

  // schedule() may find that only the caller can run; the switch then gives back the same
  // context.
  lemma SwitchToSelf(slots: seq<Slot>, w: World, w': World)
    requires Disjoint(slots) && Switched(slots, w, w', w.cur)
    ensures Resumed(slots, w.m, w'.m, w.cur)
  {
  }

  // ---------------------------------------------------------------- new tasks

  // setup_stack: the eight words at the top of a new task's stack, and Task.esp.
  function SetupStack(mem: seq<nat>, s: Slot, entry: nat, trampoline: nat, exit: nat): (r: seq<nat>)
    requires s.lo + 8 <= s.hi <= |mem| && s.tcb + ESP_FIELD < |mem|
    requires !(s.lo <= s.tcb + ESP_FIELD < s.hi)
    ensures |r| == |mem| && r[s.tcb + ESP_FIELD] == s.hi - 8
    ensures forall k :: s.hi - 8 <= k < s.hi - 4 ==> r[k] == 0
    ensures r[s.hi-4] == EFLAGS_IF && r[s.hi-3] == trampoline && r[s.hi-2] == entry && r[s.hi-1] == exit
    ensures forall a :: 0 <= a < |mem| && !s.Owns(a) ==> r[a] == mem[a]
  {
    mem[s.hi-1 := exit][s.hi-2 := entry][s.hi-3 := trampoline][s.hi-4 := EFLAGS_IF]
       [s.hi-5 := 0][s.hi-6 := 0][s.hi-7 := 0][s.hi-8 := 0][s.tcb + ESP_FIELD := s.hi - 8]
  }

  // The words of a new task that its first run depends on.
  predicate Prepared(mem: seq<nat>, s: Slot, entry: nat, trampoline: nat, exit: nat) {
    && s.lo + 8 <= s.hi <= |mem| && s.tcb + ESP_FIELD < |mem| && mem[s.tcb + ESP_FIELD] == s.hi - 8
    && mem[s.hi-8] == mem[s.hi-7] == mem[s.hi-6] == mem[s.hi-5] == 0 && mem[s.hi-4] == EFLAGS_IF
    && mem[s.hi-3] == trampoline && mem[s.hi-2] == entry && mem[s.hi-1] == exit
  }

  lemma SetupPrepares(mem: seq<nat>, s: Slot, entry: nat, trampoline: nat, exit: nat)
    requires s.lo + 8 <= s.hi <= |mem| && s.tcb + ESP_FIELD < |mem|
    requires !(s.lo <= s.tcb + ESP_FIELD < s.hi)
    ensures Prepared(SetupStack(mem, s, entry, trampoline, exit), s, entry, trampoline, exit)
  {
  }

  // The first switch to a new task reaches the trampoline with cleared registers; the
  // trampoline enters the task with interrupts on and task_exit as its return address.
  lemma FirstResume(slots: seq<Slot>, ws: seq<World>, t: nat, entry: nat, trampoline: nat, exit: nat)
    requires Disjoint(slots) && Trace(slots, ws) && |ws| >= 2 && t < |slots|
    requires Prepared(ws[0].m.mem, slots[t], entry, trampoline, exit)
    requires forall k :: 0 <= k < |ws| - 1 ==> ws[k].cur != t
    requires Switched(slots, ws[|ws|-2], ws[|ws|-1], t)
    ensures var r := ws[|ws|-1].m;
      && r.eip == trampoline && r.edi == r.esi == r.ebx == r.ebp == 0 && r.esp < |r.mem|
      && Enters(Trampoline(r), entry, exit) && Trampoline(r).esp == slots[t].hi - 1
  {
    ParkedUnchanged(slots, ws[..|ws|-1], t);
    FirstSwitch(slots, ws[0].m.mem, ws[|ws|-2], ws[|ws|-1], entry, trampoline, exit);
  }

  // About to run entry with interrupts on, with exit as the address it returns to.
  predicate Enters(m: Machine, entry: nat, exit: nat) {
    m.eip == entry && m.eflags == 0x200 && m.esp < |m.mem| && m.mem[m.esp] == exit
  }

  lemma FirstSwitch(slots: seq<Slot>, frame: seq<nat>, c: World, d: World, entry: nat, trampoline: nat, exit: nat)
    requires Disjoint(slots) && Switched(slots, c, d, d.cur) && d.cur != c.cur
    requires SameWords(slots[d.cur], frame, c.m.mem)
    requires Prepared(frame, slots[d.cur], entry, trampoline, exit)
    ensures var r := d.m;
      && r.eip == trampoline && r.edi == r.esi == r.ebx == r.ebp == 0 && r.esp < |r.mem|
      && Enters(Trampoline(r), entry, exit) && Trampoline(r).esp == slots[d.cur].hi - 1
  {
    var s := slots[d.cur];
    SwitchLoads(slots, c, d, frame, s.hi - 8);
    assert s.Owns(s.hi - 1) && s.Owns(s.hi - 2);
    TrampolineEnters(d.m, entry, exit);
  }

  lemma TrampolineEnters(r: Machine, entry: nat, exit: nat)
    requires r.esp + 1 < |r.mem| && r.mem[r.esp] == entry && r.mem[r.esp+1] == exit && r.eflags == EFLAGS_IF
    ensures Enters(Trampoline(r), entry, exit)
  {
  }
}
