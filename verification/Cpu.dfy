// The processor state that task.asm works on, with the instructions executed one by one on
// a word-addressed memory.
module Cpu {
  import opened ContextModel

  class Processor {
    const mem: array<nat>
    var edi: nat
    var esi: nat
    var ebx: nat
    var ebp: nat
    var eflags: nat
    var esp: nat
    var eip: nat

    constructor (mem: array<nat>)
      ensures this.mem == mem
    {
      this.mem := mem;
      edi, esi, ebx, ebp, eflags, esp, eip := 0, 0, 0, 0, 0, 0, 0;
    }

    ghost function View(): Machine
      reads this, mem
    {
      Machine(mem[..], edi, esi, ebx, ebp, eflags, esp, eip)
    }

    method PushWord(v: nat)
      requires 0 < esp <= mem.Length
      modifies this`esp, mem
      ensures View() == Push(old(View()), v)
    {
      esp := esp - 1;
      mem[esp] := v;
    }

    method PopWord() returns (v: nat)
      requires esp < mem.Length
      modifies this`esp
      ensures v == mem[old(esp)] && esp == old(esp) + 1
    {
      v := mem[esp];
      esp := esp + 1;
    }

    method SaveContext()
      requires 5 <= esp <= mem.Length
      modifies this`esp, mem
      ensures View() == Saved(old(View()))
    {
      PushWord(eflags);
      PushWord(ebp);
      PushWord(ebx);
      PushWord(esi);
      PushWord(edi);
    }

    method LoadContext()
      requires esp + 6 <= mem.Length
      modifies this
      ensures mem[..] == old(mem[..]) && Loaded(View(), mem[..], old(esp))
    {
      edi := PopWord();
      esi := PopWord();
      ebx := PopWord();
      ebp := PopWord();
      eflags := PopWord();
      eip := PopWord();
    }

    // switch_task: eax and edx take the two arguments, the context is pushed, the stack
    // pointers are exchanged through the two records, the other context is popped.
    method Switch()
      requires CanSwitch(View())
      modifies this, mem
      ensures View() == SwitchTask(old(View()))
    {
      var eax := mem[esp + 1];
      var edx := mem[esp + 2];
      StoreContext(eax);
      esp := mem[edx + ESP_FIELD];
      LoadContext();
      LoadedIsSwitch(old(View()), View());
    }

    method StoreContext(eax: nat)
      requires 5 <= esp && esp + 3 <= mem.Length && eax == mem[esp+1] && eax + ESP_FIELD < mem.Length
      modifies this`esp, mem
      ensures mem[..] == StoredEsp(old(View()))
    {
      SaveContext();
      mem[eax + ESP_FIELD] := esp;
    }

    // The eight stores of setup_stack, from the top of the stack down.
    method BuildFrame(top: nat, entry: nat, trampoline: nat, exit: nat) returns (stack: nat)
      requires 8 <= top <= mem.Length
      modifies mem
      ensures stack == top - 8
      ensures mem[top-8] == mem[top-7] == mem[top-6] == mem[top-5] == 0 && mem[top-4] == EFLAGS_IF
      ensures mem[top-3] == trampoline && mem[top-2] == entry && mem[top-1] == exit
      ensures forall a :: 0 <= a < mem.Length && !(top - 8 <= a < top) ==> mem[a] == old(mem[a])
    {
      stack := top - 1;
      mem[stack] := exit;
      stack := stack - 1;
      mem[stack] := entry;
      stack := stack - 1;
      mem[stack] := trampoline;
      stack := stack - 1;
      mem[stack] := EFLAGS_IF;
      stack := stack - 1;
      mem[stack] := 0;
      stack := stack - 1;
      mem[stack] := 0;
      stack := stack - 1;
      mem[stack] := 0;
      stack := stack - 1;
      mem[stack] := 0;
    }

    // setup_stack for a task whose record and stack are the given slot.
    method PrepareStack(s: Slot, entry: nat, trampoline: nat, exit: nat)
      requires s.lo + 8 <= s.hi <= mem.Length && s.tcb + ESP_FIELD < mem.Length
      requires !(s.lo <= s.tcb + ESP_FIELD < s.hi)
      modifies mem
      ensures mem[..] == SetupStack(old(mem[..]), s, entry, trampoline, exit)
      ensures Prepared(mem[..], s, entry, trampoline, exit)
    {
      hide SetupStack;
      var stack := BuildFrame(s.hi, entry, trampoline, exit);
      mem[s.tcb + ESP_FIELD] := stack;
      SetupIs(old(mem[..]), mem[..], s, entry, trampoline, exit);
      SetupPrepares(old(mem[..]), s, entry, trampoline, exit);
    }
  }

  lemma LoadedIsSwitch(m: Machine, r: Machine)
    requires CanSwitch(m) && r.mem == StoredEsp(m)
    requires Loaded(r, r.mem, r.mem[m.mem[m.esp+2] + ESP_FIELD])
    ensures r == SwitchTask(m)
  {
    hide StoredEsp;
  }

  lemma SetupIs(was: seq<nat>, mem: seq<nat>, s: Slot, entry: nat, trampoline: nat, exit: nat)
    requires Prepared(mem, s, entry, trampoline, exit) && |mem| == |was|
    requires !(s.lo <= s.tcb + ESP_FIELD < s.hi)
    requires forall a :: 0 <= a < |was| && !(s.hi - 8 <= a < s.hi) && a != s.tcb + ESP_FIELD ==> mem[a] == was[a]
    ensures mem == SetupStack(was, s, entry, trampoline, exit)
  {
    var r := SetupStack(was, s, entry, trampoline, exit);
    forall a | 0 <= a < |was|
      ensures mem[a] == r[a]
    {
      var k := a - (s.hi - 8);
      if 0 <= k < 8 {
        assert k == 0 || k == 1 || k == 2 || k == 3 || k == 4 || k == 5 || k == 6 || k == 7;
      }
    }
  }
}
