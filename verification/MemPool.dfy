/**
  The pooled free-list allocator of marsksim/comm/tinyxml2.h (MemPoolT).  Memory is modelled by
  addresses: a slot's link word lies in the slot itself (a union), so once a slot is handed
  out its client may overwrite that word.
 */
module MemPools {

  type Address = nat

  const NULL: Address := 0

  ghost predicate Distinct(s: seq<Address>) {
    forall i, j :: 0 <= i < j < |s| ==> s[i] != s[j]
  }

  ghost function Elements(s: seq<Address>): set<Address> {
    set x | x in s
  }

  lemma {:induction false} ElementsCount(s: seq<Address>)
    requires Distinct(s)
    ensures |Elements(s)| == |s|
  {
    if s != [] {
      var rest := s[1..];
      ElementsCount(rest);
      assert Elements(s) == {s[0]} + Elements(rest);
      assert s[0] !in rest;
    }
  }

  /** The slots of one block, and of all blocks in order. */
  function BlockSlots(base: Address, n: nat): (s: seq<Address>)
    ensures |s| == n && forall i :: 0 <= i < n ==> s[i] == base + i
  {
    seq(n, i => base + i)
  }

  ghost function Slots(blocks: seq<Address>, n: nat): seq<Address> {
    if blocks == [] then [] else Slots(blocks[..|blocks| - 1], n) + BlockSlots(blocks[|blocks| - 1], n)
  }

  /** What the system allocator guarantees about the block it returns. */
  ghost predicate Unused(items: seq<Address>, slots: seq<Address>) {
    forall i :: 0 <= i < |items| ==> items[i] != NULL && items[i] !in slots
  }

  lemma SlotsGrow(blocks: seq<Address>, base: Address, n: nat)
    ensures Slots(blocks + [base], n) == Slots(blocks, n) + BlockSlots(base, n)
  {
    assert (blocks + [base])[..|blocks|] == blocks;
  }

  /** The free list as a stack: root is its last slot and every link leads one slot down. */
  ghost predicate Linked(root: Address, next: map<Address, Address>, free: seq<Address>) {
    && NULL !in free
    && root == (if free == [] then NULL else free[|free| - 1])
    && (forall i :: 0 <= i < |free| ==> free[i] in next)
    && forall i {:trigger next[free[i]]} :: 0 <= i < |free| ==> next[free[i]] == if i == 0 then NULL else free[i - 1]
  }

  lemma LinkedPop(root: Address, next: map<Address, Address>, free: seq<Address>)
    requires Linked(root, next, free) && free != []
    ensures root in next && Linked(next[root], next, free[..|free| - 1])
  {
    var n := |free| - 1;
    assert next[free[n]] == if n == 0 then NULL else free[n - 1];
    forall i | 0 <= i < n
      ensures next[free[..n][i]] == if i == 0 then NULL else free[..n][i - 1]
    {
      assert next[free[i]] == if i == 0 then NULL else free[i - 1];
    }
  }

  lemma LinkedPush(root: Address, next: map<Address, Address>, free: seq<Address>, item: Address)
    requires Linked(root, next, free) && item != NULL && item !in free
    ensures Linked(item, next[item := root], free + [item])
  {
    var after, links := free + [item], next[item := root];
    forall i | 0 <= i < |after|
      ensures links[after[i]] == if i == 0 then NULL else after[i - 1]
    {
      if i < |free| {
        assert next[free[i]] == if i == 0 then NULL else free[i - 1];
      }
    }
  }

  /** The link word of a slot that is not on the list does not matter. */
  lemma LinkedFrame(root: Address, next: map<Address, Address>, free: seq<Address>, item: Address, word: Address)
    requires Linked(root, next, free) && item !in free
    ensures Linked(root, next[item := word], free)
  {
    forall i | 0 <= i < |free|
      ensures next[item := word][free[i]] == if i == 0 then NULL else free[i - 1]
    {
      assert next[free[i]] == if i == 0 then NULL else free[i - 1];
    }
  }

  ghost function Reversed(s: seq<Address>): (r: seq<Address>)
    ensures |r| == |s| && forall i :: 0 <= i < |s| ==> r[i] == s[|s| - 1 - i]
  {
    seq(|s|, i requires 0 <= i < |s| => s[|s| - 1 - i])
  }

  /** Every item links to the one after it, the last one to null. */
  ghost predicate LinkedInOrder(items: seq<Address>, next: map<Address, Address>) {
    && (forall i :: 0 <= i < |items| ==> items[i] in next)
    && forall k {:trigger next[items[k]]} :: 0 <= k < |items| ==>
         next[items[k]] == if k + 1 < |items| then items[k + 1] else NULL
  }

  lemma LinkedBlock(items: seq<Address>, next: map<Address, Address>)
    requires items != [] && NULL !in items && LinkedInOrder(items, next)
    ensures Linked(items[0], next, Reversed(items))
  {
    var free := Reversed(items);
    forall i | 0 <= i < |free|
      ensures next[free[i]] == if i == 0 then NULL else free[i - 1]
    {
      var k := |items| - 1 - i;
      assert free[i] == items[k];
      assert i > 0 ==> free[i - 1] == items[k + 1];
    }
  }

  /** Free and live slots are disjoint, and together are exactly all slots. */
  ghost predicate Partition(free: seq<Address>, live: set<Address>, slots: seq<Address>) {
    && Distinct(free) && Distinct(slots)
    && (forall x :: x in live ==> x !in free)
    && (forall x :: x in slots <==> x in free || x in live)
  }

  lemma PartitionTake(free: seq<Address>, live: set<Address>, slots: seq<Address>)
    requires Partition(free, live, slots) && free != []
    ensures var n := |free| - 1; free[n] !in live && Partition(free[..n], live + {free[n]}, slots)
  {
    var n := |free| - 1;
    assert free == free[..n] + [free[n]];
    assert free[n] !in free[..n];
  }

  lemma PartitionPut(item: Address, free: seq<Address>, live: set<Address>, slots: seq<Address>)
    requires Partition(free, live, slots) && item in live
    ensures Partition(free + [item], live - {item}, slots) && item !in free
  {
  }

  lemma PartitionGrow(items: seq<Address>, free: seq<Address>, live: set<Address>, slots: seq<Address>)
    requires Partition([], live, slots) && Distinct(items) && Unused(items, slots)
    requires free == Reversed(items)
    ensures Partition(free, live, slots + items)
  {
    forall i | 0 <= i < |items|
      ensures items[i] in free
    {
      assert free[|items| - 1 - i] == items[i];
    }
  }

  lemma TakeTop(root: Address, next: map<Address, Address>, free: seq<Address>, live: set<Address>, slots: seq<Address>)
    requires Linked(root, next, free) && Partition(free, live, slots) && free != []
    ensures root != NULL && root in next && root !in live && free == free[..|free| - 1] + [root]
    ensures Linked(next[root], next, free[..|free| - 1])
    ensures Partition(free[..|free| - 1], live + {root}, slots)
  {
    LinkedPop(root, next, free);
    PartitionTake(free, live, slots);
  }

  lemma GrownPool(blocks: seq<Address>, block: Address, n: nat, next: map<Address, Address>, live: set<Address>)
    requires n > 0 && Partition([], live, Slots(blocks, n)) && Unused(BlockSlots(block, n), Slots(blocks, n))
    requires LinkedInOrder(BlockSlots(block, n), next)
    ensures var free := Reversed(BlockSlots(block, n));
            && Linked(block, next, free) && free[n - 1] == block
            && Partition(free, live, Slots(blocks + [block], n))
            && |Slots(blocks + [block], n)| == |Slots(blocks, n)| + n
  {
    SlotsGrow(blocks, block, n);
    PartitionGrow(BlockSlots(block, n), Reversed(BlockSlots(block, n)), live, Slots(blocks, n));
    LinkedBlock(BlockSlots(block, n), next);
  }

  /** The number of live slots is what is not free. */
  lemma PartitionCount(free: seq<Address>, live: set<Address>, slots: seq<Address>)
    requires Partition(free, live, slots)
    ensures |live| == |slots| - |free|
  {
    ElementsCount(free);
    ElementsCount(slots);
    assert Elements(slots) == Elements(free) + live;
    assert Elements(free) !! live;
  }

  class MemPool {
    const itemsPerBlock: nat
    var root: Address
    var blocks: seq<Address>
    var next: map<Address, Address>
    var currentAllocs: int
    var nAllocs: int
    var maxAllocs: int
    var nUntracked: int
    ghost var free: seq<Address>
    ghost var live: set<Address>

    ghost predicate Valid()
      reads this
    {
      && itemsPerBlock > 0
      && Linked(root, next, free)
      && Partition(free, live, Slots(blocks, itemsPerBlock))
      && currentAllocs + |free| == |Slots(blocks, itemsPerBlock)|
      && currentAllocs <= maxAllocs <= nAllocs
    }

    /** _currentAllocs is the number of live items. */
    lemma LiveCount()
      requires Valid()
      ensures currentAllocs == |live|
    {
      PartitionCount(free, live, Slots(blocks, itemsPerBlock));
    }

    constructor (itemSize: nat)
      requires 0 < itemSize <= 4096
      ensures Valid() && live == {} && blocks == [] && itemsPerBlock == 4096 / itemSize
    {
      itemsPerBlock := 4096 / itemSize;
      root, blocks, next := NULL, [], map[];
      currentAllocs, nAllocs, maxAllocs, nUntracked := 0, 0, 0, 0;
      free, live := [], {};
    }

    /** Alloc.  newBlock is the address the system allocator returns if a block is needed: one
        whose slots overlap no block in use.  The item handed out is never a live one. */
    method Alloc(newBlock: Address) returns (result: Address)
      requires Valid() && Unused(BlockSlots(newBlock, itemsPerBlock), Slots(blocks, itemsPerBlock))
      modifies this
      ensures Valid() && result != NULL && result !in old(live) && live == old(live) + {result}
      ensures if old(free) == [] then result == newBlock && blocks == old(blocks) + [newBlock]
              else old(free) == free + [result] && blocks == old(blocks)
      ensures currentAllocs == old(currentAllocs) + 1
    {
      if root == NULL {
        AddBlock(newBlock);
      }
      result := PopFree();
    }

    method PopFree() returns (result: Address)
      requires Valid() && free != []
      modifies this`root, this`free, this`live, this`currentAllocs, this`maxAllocs, this`nAllocs, this`nUntracked
      ensures Valid() && result != NULL && result !in old(live) && live == old(live) + {result}
      ensures old(free) == free + [result] && currentAllocs == old(currentAllocs) + 1
    {
      TakeTop(root, next, free, live, Slots(blocks, itemsPerBlock));
      result := root;
      HandOut(next[root], free[..|free| - 1], live + {root});
    }

    /** The list starts at the next item, and one more item is counted. */
    method HandOut(top: Address, ghost rest: seq<Address>, ghost used: set<Address>)
      requires itemsPerBlock > 0 && Linked(top, next, rest) && Partition(rest, used, Slots(blocks, itemsPerBlock))
      requires currentAllocs + 1 + |rest| == |Slots(blocks, itemsPerBlock)|
      requires currentAllocs <= maxAllocs <= nAllocs
      modifies this`root, this`free, this`live, this`currentAllocs, this`maxAllocs, this`nAllocs, this`nUntracked
      ensures Valid() && free == rest && live == used && currentAllocs == old(currentAllocs) + 1
    {
      root := top;
      free, live := rest, used;
      currentAllocs := currentAllocs + 1;
      if currentAllocs > maxAllocs {
        maxAllocs := currentAllocs;
      }
      nAllocs := nAllocs + 1;
      nUntracked := nUntracked + 1;
    }

    /** A new block whose slots are linked in order becomes the free list. */
    method AddBlock(block: Address)
      requires Valid() && free == [] && Unused(BlockSlots(block, itemsPerBlock), Slots(blocks, itemsPerBlock))
      modifies this`root, this`blocks, this`next, this`free
      ensures Valid() && free != [] && free[|free| - 1] == block && blocks == old(blocks) + [block]
    {
      var items := BlockSlots(block, itemsPerBlock);
      LinkItems(items);
      GrownPool(blocks, block, itemsPerBlock, next, live);
      Install(block, Reversed(items));
    }

    method Install(block: Address, ghost slots: seq<Address>)
      requires itemsPerBlock > 0 && Linked(block, next, slots)
      requires Partition(slots, live, Slots(blocks + [block], itemsPerBlock))
      requires currentAllocs + |slots| == |Slots(blocks + [block], itemsPerBlock)|
      requires currentAllocs <= maxAllocs <= nAllocs
      modifies this`root, this`blocks, this`free
      ensures Valid() && free == slots && blocks == old(blocks) + [block]
    {
      blocks := blocks + [block];
      root := block;
      free := slots;
    }

    method LinkItems(items: seq<Address>)
      requires items != [] && Distinct(items)
      modifies this`next
      ensures LinkedInOrder(items, next)
    {
      for i := 0 to |items| - 1
        invariant forall k :: 0 <= k < i ==> items[k] in next
        invariant forall k {:trigger next[items[k]]} :: 0 <= k < i ==> next[items[k]] == items[k + 1]
      {
        next := next[items[i] := items[i + 1]];
      }
      next := next[items[|items| - 1] := NULL];
    }

    /** Free: the slot's memory becomes a link again and the slot is the next to be handed out. */
    method Free(mem: Address)
      requires Valid()
      requires mem != NULL ==> mem in live
      modifies this`root, this`next, this`currentAllocs, this`free, this`live
      ensures Valid()
      ensures mem == NULL ==> live == old(live) && free == old(free)
      ensures mem != NULL ==> live == old(live) - {mem} && free == old(free) + [mem]
    {
      if mem == NULL {
        return;
      }
      currentAllocs := currentAllocs - 1;
      PartitionPut(mem, free, live, Slots(blocks, itemsPerBlock));
      LinkedPush(root, next, free, mem);
      next := next[mem := root];
      root := mem;
      free, live := free + [mem], live - {mem};
    }

    /** The client of a live item overwrites the memory that held its link. */
    method Overwrite(item: Address, word: Address)
      requires Valid() && item in live
      modifies this`next
      ensures Valid()
    {
      LinkedFrame(root, next, free, item, word);
      next := next[item := word];
    }

    /** Clear: all blocks are deleted. */
    method Clear()
      requires Valid()
      modifies this
      ensures Valid() && live == {} && blocks == [] && currentAllocs == 0
    {
      while blocks != []
        decreases |blocks|
      {
        blocks := blocks[..|blocks| - 1];
      }
      root := NULL;
      currentAllocs, nAllocs, maxAllocs, nUntracked := 0, 0, 0, 0;
      free, live := [], {};
    }
  }
}
