// The kernel heap as malloc.c keeps it: a singly linked list of headers updated in place.
// Each method is proved to do to the list what the corresponding function of HeapModel
// does to its value.
module KernelHeap {
  import opened Basics
  import opened HeapModel

  // malloc_block_t together with the virtual address it lies at.
  class Block {
    const addr: nat
    var size: nat
    var free: bool
    var next: Block?

    constructor (addr: nat, size: nat, free: bool, next: Block?)
      ensures this.addr == addr && this.size == size && this.free == free && this.next == next
    {
      this.addr, this.size, this.free, this.next := addr, size, free, next;
    }

    predicate Holds(n: Node)
      reads this
    {
      addr == n.addr && size == n.size && free == n.free
    }
  }

  class MallocHeap {
    var head: Block?
    var totalPages: nat
    ghost var chain: seq<Block>  // the blocks in list order
    ghost var nodes: seq<Node>   // their values

    ghost predicate Valid()
      reads this, chain
    {
      && head == (if chain == [] then null else chain[0])
      && |nodes| == |chain|
      && (forall i :: 0 <= i < |chain| ==> chain[i].Holds(nodes[i]))
      && (forall i, j :: 0 <= i < j < |chain| ==> chain[i] != chain[j])
      && (forall i {:trigger chain[i].next} :: 0 <= i < |chain| ==>
            chain[i].next == if i + 1 < |chain| then chain[i+1] else null)
    }

    ghost function View(): Heap
      reads this
    {
      Heap(nodes, totalPages)
    }

    constructor ()
      ensures Valid() && head == null && chain == [] && totalPages == 0
    {
      head, totalPages, chain, nodes := null, 0, [], [];
    }

    // malloc_init: one free block over the pages of the first request.
    method Init(bytes: nat)
      modifies this
      ensures Valid() && fresh(chain) && View() == HeapModel.Init(bytes)
    {
      totalPages := (bytes + PAGE_SIZE - 1) % U32 / PAGE_SIZE;
      if bytes % PAGE_SIZE > 0 {
        totalPages := totalPages + 1;
      }
      head := new Block(HEAP_START, (totalPages * PAGE_SIZE - HEADER) % U32, true, null);
      chain := [head];
      nodes := [Node(HEAP_START, (totalPages * PAGE_SIZE - HEADER) % U32, true)];
    }

    // malloc_split on the block at position i of the list.
    method SplitBlock(node: Block, size: nat, ghost i: nat)
      requires Valid() && i < |chain| && chain[i] == node
      modifies this`chain, this`nodes, node
      ensures Valid()
      ensures forall b :: b in chain ==> b in old(chain) || fresh(b)
      ensures nodes == HeapModel.Split(old(nodes), i, size, 0)
    {
      hide HeapModel.Split;
      var newNode := new Block((node.addr + HEADER + size) % U32, (node.size - size - HEADER) % U32, true, node.next);
      node.size := size;
      node.free := false;
      node.next := newNode;
      ghost var c := InsertAfter(chain, i, newNode);
      SplitPositions(nodes, i, size);
      chain := c;
      nodes := HeapModel.Split(nodes, i, size, 0);
    }

    method SetFree(node: Block, free: bool, ghost i: nat)
      requires Valid() && i < |chain| && chain[i] == node
      modifies this`nodes, node`free
      ensures Valid() && nodes == old(nodes)[i := old(nodes)[i].(free := free)]
    {
      node.free := free;
      nodes := nodes[i := nodes[i].(free := free)];
    }

    // The page loop of malloc_next_block: the block grows page by page.
    method GrowBlock(node: Block, numPages: nat, ghost i: nat)
      requires Valid() && i < |chain| && chain[i] == node
      modifies this`totalPages, this`nodes, node`size
      ensures Valid() && totalPages == old(totalPages) + numPages
      ensures nodes == old(nodes)[i := old(nodes)[i].(size := old(nodes)[i].size + numPages * PAGE_SIZE)]
    {
      for k := 0 to numPages
        invariant totalPages == old(totalPages) + k
        invariant Valid()
        invariant nodes == old(nodes)[i := old(nodes)[i].(size := old(nodes)[i].size + k * PAGE_SIZE)]
      {
        node.size := node.size + PAGE_SIZE;
        totalPages := totalPages + 1;
        nodes := nodes[i := nodes[i].(size := node.size)];
      }
    }

    // The last branch of malloc_next_block: count the pages needed, add them, split. The
    // counter has 8 bits; when 255 pages are too few the loop would not end.
    method GrowAndSplit(node: Block, size: nat, ghost i: nat)
      requires Valid() && i < |chain| && chain[i] == node
      requires Growth(node.size, Needed(size)) <= MAX_GROWTH
      modifies this`totalPages, this`nodes, this`chain, node
      ensures Valid()
      ensures forall b :: b in chain ==> b in old(chain) || fresh(b)
      ensures var k := Growth(old(node.size), Needed(size));
        && totalPages == old(totalPages) + k
        && nodes == HeapModel.Split(old(nodes), i, size, k * PAGE_SIZE)
    {
      var numPages := 1;
      while node.size + numPages * PAGE_SIZE < (size + HEADER) % U32
        invariant 1 <= numPages <= Growth(node.size, Needed(size))
        decreases MAX_GROWTH - numPages
      {
        numPages := (numPages + 1) % 256;
      }
      GrowBlock(node, numPages, i);
      SplitGrown(old(nodes), i, size, numPages * PAGE_SIZE);
      SplitBlock(node, size, i);
    }

    // The first-fit walk of malloc_next_block.
    method FindBlock(size: nat) returns (cur: Block, ghost i: nat)
      requires Valid() && chain != []
      ensures i < |chain| && cur == chain[i] && i == Search(nodes, size)
    {
      cur, i := head, 0;
      while (cur.size < size || !cur.free) && cur.next != null
        invariant i < |chain| && cur == chain[i]
        invariant forall k :: 0 <= k < i ==> !Fits(nodes[k], size)
        decreases |chain| - i
      {
        cur := cur.next;
        i := i + 1;
      }
      SearchIs(nodes, size, i);
    }

    // malloc_next_block; null pointers are the value 0.
    method NextBlock(size: nat) returns (ptr: nat)
      requires Valid() && chain != [] && nodes[0].size > 0
      requires size > 0 ==> !Hangs(View(), size)
      modifies this`totalPages, this`nodes, this`chain, chain
      ensures Valid() && chain != []
      ensures forall b :: b in chain ==> b in old(chain) || fresh(b)
      ensures View() == if size == 0 then old(View()) else HeapModel.NextBlock(old(View()), size)
      ensures ptr == if size == 0 then 0 else Pointer(old(View()), size)
    {
      if size == 0 {
        return 0;
      }
      var cur, i := FindBlock(size);
      ptr := cur.addr + HEADER;
      if size == cur.size {
        SetFree(cur, false, i);
      } else if cur.size > (size + HEADER) % U32 {
        SplitBlock(cur, size, i);
      } else {
        GrowAndSplit(cur, size, i);
      }
    }

    // Takes the block after position i into the one at i.
    method JoinNext(cur: Block, ghost i: nat)
      requires Valid() && i + 1 < |chain| && chain[i] == cur
      modifies this`nodes, this`chain, cur
      ensures Valid() && nodes == Joined(old(nodes), i)
      ensures |chain| > i && chain[i] == cur
      ensures forall b :: b in chain ==> b in old(chain)
    {
      cur.size := cur.size + cur.next.size + HEADER;
      cur.next := cur.next.next;
      ghost var c := RemoveAfter(chain, i);
      JoinedPositions(nodes, i);
      nodes := Joined(nodes, i);
      chain := c;
    }

    // merge_free_blocks.
    method MergeFreeBlocks()
      requires Valid()
      modifies this`nodes, this`chain, chain
      ensures Valid() && (chain == [] <==> old(chain) == [])
      ensures forall b :: b in chain ==> b in old(chain)
      ensures nodes == Merge(old(nodes))
    {
      var cur := head;
      ghost var i := 0;
      while cur != null && cur.next != null
        invariant Valid()
        invariant forall b :: b in chain ==> b in old(chain)
        invariant i <= |chain| && cur == if i < |chain| then chain[i] else null
        invariant chain == [] <==> old(chain) == []
        invariant nodes[..i] + Merge(nodes[i..]) == Merge(old(nodes))
        decreases |chain| - i
      {
        MergeOnce(nodes, i);
        assert cur in chain;
        if cur.free && cur.next.free {
          JoinNext(cur, i);
        }
        cur := cur.next;
        i := i + 1;
      }
      assert |nodes[i..]| < 2;
      assert nodes == nodes[..i] + nodes[i..];
    }

    // malloc_free, reached through syscall_free.
    method Free(ptr: nat)
      requires Valid() && chain != []
      modifies this`nodes, this`chain, chain
      ensures Valid() && chain != []
      ensures forall b :: b in chain ==> b in old(chain)
      ensures View() == HeapModel.Free(old(View()), ptr)
    {
      var cur := head;
      ghost var i := 0;
      while cur.next != null
        invariant i < |chain| && cur == chain[i]
        invariant forall k :: 0 <= k < i ==> nodes[k].Payload() != ptr
        decreases |chain| - i
      {
        if cur.addr + HEADER == ptr {
          FindIs(nodes, i, ptr);
          SetFree(cur, true, i);
          MergeFreeBlocks();
          return;
        }
        cur := cur.next;
        i := i + 1;
      }
      FindIs(nodes, i, ptr);
    }

    // syscall_malloc: the first request sets the heap up, and free neighbours are merged
    // before the pointer is returned.
    method SyscallMalloc(bytes: nat) returns (ptr: nat)
      requires Valid()
      requires var h := if chain == [] then HeapModel.Init(bytes) else View();
        h.nodes[0].size > 0 && (bytes > 0 ==> !Hangs(h, bytes))
      modifies this, chain
      ensures Valid() && chain != []
      ensures var h := if old(chain) == [] then HeapModel.Init(bytes) else old(View());
        && View() == Malloc(h, bytes)
        && ptr == if bytes == 0 then 0 else Pointer(h, bytes)
    {
      if head == null {
        Init(bytes);
      }
      ghost var ready := chain;
      assert forall b :: b in ready ==> b in old(chain) || fresh(b);
      ptr := NextBlock(bytes);
      assert forall b :: b in chain ==> b in ready || fresh(b);
      assert forall b :: b in chain ==> b in old(chain) || fresh(b);
      assert forall k :: 0 <= k < |chain| ==> chain[k] in old(chain) || fresh(chain[k]);
      MergeFreeBlocks();
    }
  }

  // ---------------------------------------------------------------- the loops on values

  lemma FindIs(s: seq<Node>, i: nat, ptr: nat)
    requires i < |s| && (i + 1 < |s| ==> s[i].Payload() == ptr)
    requires forall k :: 0 <= k < i ==> s[k].Payload() != ptr
    ensures FindFrom(s, 0, ptr) == if i + 1 < |s| then i else |s|
  {
    var r := FindFrom(s, 0, ptr);
    if i + 1 < |s| { assert Frees(s, i, ptr); }
  }

  lemma SplitGrown(s: seq<Node>, i: nat, size: nat, extra: nat)
    requires i < |s|
    ensures HeapModel.Split(s[i := s[i].(size := s[i].size + extra)], i, size, 0)
         == HeapModel.Split(s, i, size, extra)
  {
    var t := s[i := s[i].(size := s[i].size + extra)];
    assert t[..i] == s[..i] && t[i+1..] == s[i+1..];
  }

  lemma InsertAfter<T>(c: seq<T>, i: nat, x: T) returns (d: seq<T>)
    requires i < |c|
    ensures |d| == |c| + 1 && d[i+1] == x
    ensures forall k :: 0 <= k <= i ==> d[k] == c[k]
    ensures forall k {:trigger d[k]} :: i + 1 < k <= |c| ==> d[k] == c[k-1]
  {
    d := c[..i+1] + [x] + c[i+1..];
  }

  lemma RemoveAfter<T>(c: seq<T>, i: nat) returns (d: seq<T>)
    requires i + 1 < |c|
    ensures |d| == |c| - 1
    ensures forall k :: 0 <= k <= i ==> d[k] == c[k]
    ensures forall k {:trigger d[k]} :: i < k < |d| ==> d[k] == c[k+1]
  {
    d := c[..i+1] + c[i+2..];
  }

  lemma SplitPositions(s: seq<Node>, i: nat, size: nat)
    requires i < |s|
    ensures var t := HeapModel.Split(s, i, size, 0);
      && |t| == |s| + 1
      && t[i] == Node(s[i].addr, size, false)
      && t[i+1] == Node((s[i].addr + HEADER + size) % U32, (s[i].size - size - HEADER) % U32, true)
      && (forall k :: 0 <= k < i ==> t[k] == s[k])
      && (forall k {:trigger t[k]} :: i + 1 < k <= |s| ==> t[k] == s[k-1])
  {
  }

  lemma JoinedPositions(s: seq<Node>, i: nat)
    requires i + 1 < |s|
    ensures var t := Joined(s, i);
      && |t| == |s| - 1
      && t[i] == s[i].(size := s[i].size + s[i+1].size + HEADER)
      && (forall k :: 0 <= k < i ==> t[k] == s[k])
      && (forall k {:trigger t[k]} :: i < k < |t| ==> t[k] == s[k+1])
  {
  }

  function Joined(s: seq<Node>, i: nat): seq<Node>
    requires i + 1 < |s|
  {
    s[..i] + [s[i].(size := s[i].size + s[i+1].size + HEADER)] + s[i+2..]
  }

  lemma TakeOneMore<T>(t: seq<T>, i: nat, rest: seq<T>)
    requires i < |t|
    ensures t[..i+1] + rest == t[..i] + ([t[i]] + rest)
  {
  }

  // One turn of the merging loop, seen from the blocks still ahead.
  lemma MergeOnce(s: seq<Node>, i: nat)
    requires i + 1 < |s|
    ensures var t := if s[i].free && s[i+1].free then Joined(s, i) else s;
      t[..i+1] + Merge(t[i+1..]) == s[..i] + Merge(s[i..])
  {
    if s[i].free && s[i+1].free {
      var t := Joined(s, i);
      assert t[i+1..] == s[i..][2..];
      assert t[..i] == s[..i];
      TakeOneMore(t, i, Merge(t[i+1..]));
    } else {
      assert s[i+1..] == s[i..][1..];
      TakeOneMore(s, i, Merge(s[i+1..]));
    }
  }
}
