/** The public entry points of arena.c that take an `arena_t *` which may be
    null: with no arena a block is a malloc'd region behind a capacity
    header, otherwise it belongs to the arena. The capacity and contents of
    a block are read from its owner. */
module ArenaApi {
  import opened Memory
  import opened Sequences
  import opened Blocks
  import opened AllocState
  import opened Registry
  import opened Arenas

  /** The capacity headers of the blocks owned by a (the process heap's own
      blocks when a is null). */
  function Caps(heap: Heap, a: Arena?): map<Ptr, nat>
    reads heap, a
  {
    if a == null then heap.caps else a.alloc.caps
  }

  /** The contents of the blocks owned by a. */
  function Bytes(heap: Heap, a: Arena?): map<Ptr, seq<byte>>
    reads heap, a
  {
    if a == null then heap.bytes else a.alloc.bytes
  }

  /** The state every entry point needs: a consistent heap and, when there
      is an arena, a live and consistent one. */
  ghost predicate Ready(heap: Heap, a: Arena?)
    reads heap, a
  {
    heap.Valid() && (a != null ==> a.Valid(heap.regionSize) && a.Live())
  }

  lemma KeepsKept(s: Alloc, t: Alloc)
    requires Keeps(s, t)
    ensures KeptBut(s.caps, s.bytes, t.caps, t.bytes, Null)
  {
  }

  /** Writing to a block that was not there, or to the one block x that
      need not be kept, keeps every block that was. */
  lemma KeptWrite(c0: map<Ptr, nat>, b0: map<Ptr, seq<byte>>, c1: map<Ptr, nat>, b1: map<Ptr, seq<byte>>,
                  x: Ptr, p: Ptr, d: seq<byte>)
    requires KeptBut(c0, b0, c1, b1, x) && (p == x || p !in c0)
    ensures KeptBut(c0, b0, c1, b1[p := d], x)
  {
  }

  /** A memcpy or memset of data into block p at byte off, in whichever
      owner holds p. */
  method Put(heap: Heap, a: Arena?, p: Ptr, off: nat, data: seq<byte>)
    requires Ready(heap, a) && p in Caps(heap, a) && off + |data| <= Caps(heap, a)[p]
    modifies heap`bytes, a
    ensures Ready(heap, a) && (a != null ==> a.defersPtr == old(a.defersPtr))
    ensures Caps(heap, a) == old(Caps(heap, a)) && p in old(Bytes(heap, a))
    ensures Bytes(heap, a) == old(Bytes(heap, a))[p := Splice(old(Bytes(heap, a)[p]), off, data)]
  {
    if a == null {
      heap.Store(p, off, data);
    } else {
      a.Overwrite(heap, p, off, data);
    }
  }

  /** aalloc_capacity_bytes: 0 for null, else the capacity in the block's
      header; what it reports for a new block is stated by AllocUninitSize. */
  function CapacityBytes(caps: map<Ptr, nat>, p: Ptr): nat
    requires p == Null || p in caps
  {
    if p == Null then 0 else caps[p]
  }

  /** aalloc_uninit_size: with no arena a region of the capacity header plus
      size * count bytes is malloc'd; with an arena the block comes from it.
      Either way the block was not live, its capacity is exactly
      size * count, and every other block of its owner is as it was. */
  method AllocUninitSize(heap: Heap, a: Arena?, size: nat, count: nat) returns (p: Ptr)
    requires Ready(heap, a)
    modifies heap`nextRegion, heap`regionSize, heap`live, heap`caps, heap`bytes, a
    ensures Ready(heap, a)
    ensures Allocated(old(Caps(heap, a)), old(Bytes(heap, a)), Caps(heap, a), Bytes(heap, a), p, size * count)
    ensures p != Null ==> CapacityBytes(Caps(heap, a), p) == size * count
  {
    if a == null {
      p := UninitFromHeap(heap, a, size * count);
    } else {
      p := UninitFromArena(heap, a, size * count);
    }
  }

  /** The no-arena half of AllocUninitSize. */
  method UninitFromHeap(heap: Heap, a: Arena?, total: nat) returns (p: Ptr)
    requires a == null && Ready(heap, a)
    modifies heap`nextRegion, heap`regionSize, heap`live, heap`caps, heap`bytes
    ensures Ready(heap, a)
    ensures Allocated(old(Caps(heap, a)), old(Bytes(heap, a)), Caps(heap, a), Bytes(heap, a), p, total)
    ensures p != Null ==> CapacityBytes(Caps(heap, a), p) == total
  {
    p := heap.AllocBlock(total);
  }

  /** The arena half of AllocUninitSize. */
  method UninitFromArena(heap: Heap, a: Arena?, total: nat) returns (p: Ptr)
    requires a != null && Ready(heap, a)
    modifies heap`nextRegion, heap`regionSize, heap`live, heap`caps, heap`bytes, a
    ensures Ready(heap, a)
    ensures Allocated(old(Caps(heap, a)), old(Bytes(heap, a)), Caps(heap, a), Bytes(heap, a), p, total)
    ensures p != Null ==> CapacityBytes(Caps(heap, a), p) == total
  {
    p := a.Alloc(heap, total);
    if p != Null {
      KeepsKept(old(a.alloc), a.alloc);
    }
  }

  /** aalloc_copy_size: an uninitialised block of size * count bytes that
      then receives a copy of data (zeros when data is null). */
  method AllocCopySize(heap: Heap, a: Arena?, size: nat, count: nat, data: Source) returns (p: Ptr)
    requires Ready(heap, a) && (data.Data? ==> size * count <= |data.b|)
    modifies heap`nextRegion, heap`regionSize, heap`live, heap`caps, heap`bytes, a
    ensures Ready(heap, a)
    ensures Allocated(old(Caps(heap, a)), old(Bytes(heap, a)), Caps(heap, a), Bytes(heap, a), p, size * count)
    ensures p != Null ==> Bytes(heap, a)[p] == Fill(data, size * count)
  {
    if a == null {
      p := CopyToHeap(heap, a, size * count, data);
    } else {
      p := CopyToArena(heap, a, size * count, data);
    }
  }

  /** The no-arena half of AllocCopySize. */
  method CopyToHeap(heap: Heap, a: Arena?, total: nat, data: Source) returns (p: Ptr)
    requires a == null && Ready(heap, a) && (data.Data? ==> total <= |data.b|)
    modifies heap`nextRegion, heap`regionSize, heap`live, heap`caps, heap`bytes
    ensures Ready(heap, a)
    ensures Allocated(old(Caps(heap, a)), old(Bytes(heap, a)), Caps(heap, a), Bytes(heap, a), p, total)
    ensures p != Null ==> Bytes(heap, a)[p] == Fill(data, total)
  {
    p := heap.AllocBlock(total);
    if p != Null {
      ghost var b1 := heap.bytes;
      heap.Store(p, 0, Fill(data, total));
      KeptWrite(old(heap.caps), old(heap.bytes), heap.caps, b1, Null, p, heap.bytes[p]);
    }
  }

  /** The arena half of AllocCopySize. */
  method CopyToArena(heap: Heap, a: Arena?, total: nat, data: Source) returns (p: Ptr)
    requires a != null && Ready(heap, a) && (data.Data? ==> total <= |data.b|)
    modifies heap`nextRegion, heap`regionSize, heap`live, heap`caps, heap`bytes, a
    ensures Ready(heap, a)
    ensures Allocated(old(Caps(heap, a)), old(Bytes(heap, a)), Caps(heap, a), Bytes(heap, a), p, total)
    ensures p != Null ==> Bytes(heap, a)[p] == Fill(data, total)
  {
    p := a.Alloc(heap, total);
    if p != Null {
      ghost var b1 := a.alloc.bytes;
      KeepsKept(old(a.alloc), a.alloc);
      a.Overwrite(heap, p, 0, Fill(data, total));
      KeptWrite(old(a.alloc.caps), old(a.alloc.bytes), a.alloc.caps, b1, Null, p, a.alloc.bytes[p]);
    }
  }

  /** aalloc_size: aalloc_uninit_size followed by zeroing the block, which
      is what aalloc_copy_size does for null data. */
  method AllocSize(heap: Heap, a: Arena?, size: nat, count: nat) returns (p: Ptr)
    requires Ready(heap, a)
    modifies heap`nextRegion, heap`regionSize, heap`live, heap`caps, heap`bytes, a
    ensures Ready(heap, a)
    ensures Allocated(old(Caps(heap, a)), old(Bytes(heap, a)), Caps(heap, a), Bytes(heap, a), p, size * count)
    ensures p != Null ==> Bytes(heap, a)[p] == Zeros(size * count)
  {
    p := AllocCopySize(heap, a, size, count, NoData);
  }

  /** aalloc_copy_str: a copy of the string with its terminating zero byte.
      The string is given as its bytes before the terminator. */
  method AllocCopyStr(heap: Heap, a: Arena?, str: seq<byte>) returns (p: Ptr)
    requires Ready(heap, a) && forall i :: 0 <= i < |str| ==> str[i] != 0
    modifies heap`nextRegion, heap`regionSize, heap`live, heap`caps, heap`bytes, a
    ensures Ready(heap, a)
    ensures Allocated(old(Caps(heap, a)), old(Bytes(heap, a)), Caps(heap, a), Bytes(heap, a), p, |str| + 1)
    ensures p != Null ==> Bytes(heap, a)[p] == str + [0]
  {
    p := AllocCopySize(heap, a, 1, |str| + 1, Data(str + [0]));
  }

  /** afree: null is ignored; with no arena the block's region is freed;
      with an arena a small block goes to the head of its class list and a
      big one is unlinked and freed. The block is no longer live and every
      other block is as it was. */
  method Free(heap: Heap, a: Arena?, ptr: Ptr)
    requires Ready(heap, a) && (ptr == Null || ptr in Caps(heap, a))
    requires a != null && ptr != Null ==> ptr != a.defersPtr
    modifies heap`live, heap`released, heap`caps, heap`bytes, a
    ensures Ready(heap, a)
    ensures ptr == Null ==> Caps(heap, a) == old(Caps(heap, a)) && Bytes(heap, a) == old(Bytes(heap, a))
    ensures ptr != Null ==> Caps(heap, a) == old(Caps(heap, a)) - {ptr} && Bytes(heap, a) == old(Bytes(heap, a)) - {ptr}
    ensures a == null && ptr != Null ==> heap.released == old(heap.released) + [ptr.region]
  {
    if ptr == Null {
      return;
    }
    if a == null {
      heap.FreeBlock(ptr);
    } else {
      a.DropBlock(heap, ptr);
    }
  }

  /** arealloc_size: with no arena on malloc'd blocks, with an arena on its
      blocks; the outcome is Resized either way. */
  method ReallocSize(heap: Heap, a: Arena?, size: nat, count: nat, ptr: Ptr) returns (r: Ptr)
    requires Ready(heap, a) && (ptr == Null || ptr in Caps(heap, a))
    requires a != null && ptr != Null ==> ptr != a.defersPtr
    modifies heap`nextRegion, heap`regionSize, heap`live, heap`released, heap`caps, heap`bytes, a
    ensures Ready(heap, a) && (a != null ==> a.defersPtr == old(a.defersPtr))
    ensures Resized(old(Caps(heap, a)), old(Bytes(heap, a)), Caps(heap, a), Bytes(heap, a), ptr, size, count, r)
  {
    if a == null {
      r := heap.Realloc(size, count, ptr);
    } else {
      r := a.Resize(heap, size, count, ptr);
    }
  }

  /** arena_create with no parent: the control block and first page are a
      malloc'd region of the first page's size. */
  method CreateRoot(heap: Heap) returns (a: Arena?)
    requires heap.Valid()
    modifies heap`nextRegion, heap`regionSize, heap`live
    ensures heap.Valid() && heap.Grew()
    ensures a == null ==> heap.live == old(heap.live)
    ensures a != null ==>
      && fresh(a) && a.Valid(heap.regionSize) && a.Live() && a.parent == null && a.selfAllocated
      && a.alloc == Initial(a.self) && a.Pending() == [] && a.deferHeaders == map[]
      && a.self == At(old(heap.nextRegion), 0) && heap.regionSize[a.self.region] == INIT_SIZE
      && heap.live == old(heap.live) + {a.self.region}
  {
    var base := heap.Malloc(INIT_SIZE);
    if base == Null {
      return null;
    }
    a := new Arena(base, heap.regionSize, null, 0, true);
  }

  /** arena_create with a parent: the control block and first page are a
      zeroed block of the parent, which registers the teardown of the new
      arena; when that registration fails the block, blk, is freed again. */
  method CreateChild(heap: Heap, parent: Arena) returns (a: Arena?, ghost blk: Ptr)
    requires heap.Valid() && parent.Valid(heap.regionSize) && parent.Live() && parent.numDefers + 1 < NONE
    modifies parent`alloc, parent`defersPtr, parent`defers, parent`numDefers, parent`activeHead, parent`freeHead,
      parent`activeList, parent`freeList, heap`nextRegion, heap`regionSize, heap`live, heap`released
    ensures heap.Valid() && heap.Grew() && parent.Valid(heap.regionSize)
    ensures a == null ==> parent.activeList == old(parent.activeList) && parent.Pending() == old(parent.Pending())
    ensures a != null ==>
      && fresh(a) && a.Valid(heap.regionSize) && a.Live() && a.parent == parent && a.selfAllocated
      && a.alloc == Initial(a.self) && a.Pending() == [] && a.deferHeaders == map[]
      && a.self !in old(parent.alloc.caps) && a.self in parent.alloc.caps && a.self != parent.defersPtr
      && parent.alloc.caps[a.self] == INIT_SIZE
      && parent.activeList == [a.parentSlot] + old(parent.activeList)
      && parent.defers[a.parentSlot].fn == FreeArena && parent.defers[a.parentSlot].user == a.self
      && parent.Pending() == [Ran(FreeArena, a.self)] + old(parent.Pending())
    ensures a == null ==> blk == Null || (blk !in old(parent.alloc.caps) && blk !in parent.alloc.caps)
    ensures a != null ==> blk == a.self
    ensures a == null ==> Keeps(old(parent.alloc), parent.alloc)
    ensures KeepsBut(old(parent.alloc), parent.alloc, old(parent.defersPtr))
  {
    var base, slot;
    base, slot, blk := parent.Spawn(heap);
    if base == Null {
      return null, blk;
    }
    a := new Arena(base, heap.regionSize, parent, slot, true);
  }

  /** arena_create: a child of parent, or a root arena when parent is null. */
  method Create(heap: Heap, parent: Arena?) returns (a: Arena?)
    requires Ready(heap, parent) && (parent != null ==> parent.numDefers + 1 < NONE)
    modifies heap`nextRegion, heap`regionSize, heap`live, heap`released, parent
    ensures Ready(heap, parent)
    ensures a != null ==>
      && fresh(a) && a.Valid(heap.regionSize) && a.Live() && a.parent == parent && a.selfAllocated
      && a.Pending() == []
    ensures a != null && parent != null ==> parent.Pending() == [Ran(FreeArena, a.self)] + old(parent.Pending())
    ensures a == null && parent != null ==> parent.Pending() == old(parent.Pending())
    ensures a == null && parent != null ==> Keeps(old(parent.alloc), parent.alloc)
    ensures parent != null ==> KeepsBut(old(parent.alloc), parent.alloc, old(parent.defersPtr))
  {
    if parent == null {
      a := CreateRoot(heap);
    } else {
      ghost var blk;
      a, blk := CreateChild(heap, parent);
    }
  }

  /** arena_init with no parent: the caller's storage becomes the control
      block and first page. */
  method InitRoot(heap: Heap, base: Ptr) returns (a: Arena)
    requires base.At? && base.region in heap.regionSize && base.offset + INIT_SIZE <= heap.regionSize[base.region]
    ensures fresh(a) && a.Valid(heap.regionSize) && a.Live() && a.parent == null && !a.selfAllocated
    ensures a.self == base && a.alloc == Initial(base) && a.Pending() == [] && a.deferHeaders == map[]
  {
    a := new Arena(base, heap.regionSize, null, 0, false);
  }

  /** arena_init with a parent: the parent registers the teardown of the
      arena in the caller's storage first; when that fails there is no
      arena. */
  method InitChild(heap: Heap, base: Ptr, parent: Arena) returns (a: Arena?)
    requires heap.Valid() && parent.Valid(heap.regionSize) && parent.Live() && parent.numDefers + 1 < NONE
    requires base.At? && base.region in heap.regionSize && base.offset + INIT_SIZE <= heap.regionSize[base.region]
    modifies parent`alloc, parent`defersPtr, parent`defers, parent`numDefers, parent`activeHead, parent`freeHead,
      parent`activeList, parent`freeList, heap`nextRegion, heap`regionSize, heap`live, heap`released
    ensures heap.Valid() && heap.Grew() && parent.Valid(heap.regionSize)
    ensures a == null ==> parent.activeList == old(parent.activeList) && parent.Pending() == old(parent.Pending())
    ensures a != null ==>
      && fresh(a) && a.Valid(heap.regionSize) && a.Live() && a.parent == parent && !a.selfAllocated
      && a.self == base && a.alloc == Initial(base) && a.Pending() == [] && a.deferHeaders == map[]
      && parent.activeList == [a.parentSlot] + old(parent.activeList)
      && parent.defers[a.parentSlot].fn == FreeArena && parent.defers[a.parentSlot].user == base
      && parent.Pending() == [Ran(FreeArena, base)] + old(parent.Pending())
    ensures a == null ==> parent.alloc.caps == old(parent.alloc.caps) && parent.alloc.bytes == old(parent.alloc.bytes)
    ensures KeepsBut(old(parent.alloc), parent.alloc, old(parent.defersPtr))
  {
    var slot := parent.ExtDefer(heap, FreeArena, base);
    if slot == NONE {
      return null;
    }
    a := new Arena(base, heap.regionSize, parent, slot, false);
  }

  /** arena_init: an arena in the caller's storage at base, registered with
      parent when there is one; null when that registration fails. */
  method Init(heap: Heap, base: Ptr, parent: Arena?) returns (a: Arena?)
    requires Ready(heap, parent) && (parent != null ==> parent.numDefers + 1 < NONE)
    requires base.At? && base.region in heap.regionSize && base.offset + INIT_SIZE <= heap.regionSize[base.region]
    modifies heap`nextRegion, heap`regionSize, heap`live, heap`released, parent
    ensures Ready(heap, parent)
    ensures parent == null ==> a != null
    ensures a != null ==>
      && fresh(a) && a.Valid(heap.regionSize) && a.Live() && a.parent == parent && !a.selfAllocated
      && a.self == base && a.Pending() == []
    ensures a != null && parent != null ==> parent.Pending() == [Ran(FreeArena, base)] + old(parent.Pending())
    ensures a == null && parent != null ==> parent.Pending() == old(parent.Pending())
    ensures a == null && parent != null ==>
      parent.alloc.caps == old(parent.alloc.caps) && parent.alloc.bytes == old(parent.alloc.bytes)
    ensures parent != null ==> KeepsBut(old(parent.alloc), parent.alloc, old(parent.defersPtr))
  {
    if parent == null {
      a := InitRoot(heap, base);
    } else {
      a := InitChild(heap, base, parent);
    }
  }

  /** What arena_free needs of the parent of a: another live, consistent
      arena in which the teardown of a is still registered, and which
      holds the control block of a when a was created in it. */
  ghost predicate ChildOk(heap: Heap, a: Arena)
    reads heap, a, a.parent
  {
    a.parent != null ==>
      && a.parent != a && a.parent.Valid(heap.regionSize) && a.parent.Live()
      && a.parentSlot in a.parent.activeList && a.parentSlot < |a.parent.defers|
      && a.parent.defers[a.parentSlot].fn == FreeArena && a.parent.defers[a.parentSlot].user == a.self
      && (a.selfAllocated ==>
            a.self in a.parent.alloc.caps && a.parent.alloc.caps[a.self] == INIT_SIZE && a.self != a.parent.defersPtr)
  }

  /** arena_free on a live root arena: it is marked FREE, its pending calls
      are made newest first, its big blocks are freed, and then its own
      region when arena_create made it. */
  method DestroyRoot(heap: Heap, a: Arena)
    requires heap.Valid() && a.Valid(heap.regionSize) && a.Live() && a.parent == null
    modifies a`magic, heap`trace, heap`live, heap`released
    ensures !a.Live() && heap.trace == old(heap.trace) + old(a.Pending())
    ensures a.selfAllocated ==> a.self.At?
    ensures heap.released == old(heap.released) + a.alloc.big + (if a.selfAllocated then [a.self.region] else [])
    ensures heap.live == old(heap.live) - Elements(a.alloc.big) - (if a.selfAllocated then {a.self.region} else {})
  {
    a.Teardown(heap);
    if a.selfAllocated {
      heap.Release(a.self.region);
    }
  }

  /** arena_free on a live child arena: the teardown of DestroyRoot, then
      its registration in the parent is cancelled without being run and,
      when it was created in the parent, its control block is freed there. */
  method DestroyChild(heap: Heap, a: Arena, p: Arena)
    requires heap.Valid() && a.Valid(heap.regionSize) && a.Live() && a.parent == p && ChildOk(heap, a)
    modifies a`magic, p`alloc, p`defers, p`activeHead, p`freeHead, p`activeList, p`freeList,
      heap`trace, heap`live, heap`released
    ensures heap.Valid() && !a.Live() && heap.trace == old(heap.trace) + old(a.Pending())
    ensures p.Valid(heap.regionSize) && p.Live()
    ensures p.activeList == Without(old(p.activeList), a.parentSlot) && |p.defers| == |old(p.defers)|
    ensures p.Pending() == Fired(old(p.defers), p.activeList)
    ensures a.selfAllocated ==> p.alloc.caps == old(p.alloc.caps) - {a.self} && p.alloc.bytes == old(p.alloc.bytes) - {a.self}
    ensures !a.selfAllocated ==> p.alloc == old(p.alloc)
    ensures a.selfAllocated ==> a.self.At?
    ensures heap.released == old(heap.released) + a.alloc.big + (if a.selfAllocated then [a.self.region] else [])
    ensures heap.live == old(heap.live) - Elements(a.alloc.big) - (if a.selfAllocated then {a.self.region} else {})
  {
    a.Teardown(heap);
    p.Disown(heap, a.parentSlot, a.self, a.selfAllocated);
  }

  /** arena_free: null is ignored; a root arena goes through DestroyRoot and
      a child through DestroyChild, which cancels its registration in the
      parent whether or not arena_create made it. */
  method Destroy(heap: Heap, a: Arena?)
    requires heap.Valid() && (a != null ==> a.Valid(heap.regionSize) && a.Live() && ChildOk(heap, a))
    modifies heap`trace, heap`live, heap`released, if a == null then {} else {a, a.parent}
    ensures a == null ==> heap.trace == old(heap.trace)
    ensures a != null ==> !a.Live() && heap.trace == old(heap.trace) + old(a.Pending())
    ensures a != null && a.parent != null ==>
      && a.parent == old(a.parent) && a.parent.Valid(heap.regionSize) && a.parent.Live()
      && a.parentSlot !in a.parent.activeList
      && a.parent.activeList == Without(old(a.parent.activeList), a.parentSlot)
      && |a.parent.defers| == |old(a.parent.defers)|
      && a.parent.Pending() == Fired(old(a.parent.defers), a.parent.activeList)
      && (a.selfAllocated ==>
            && a.parent.alloc.caps == old(a.parent.alloc.caps) - {a.self}
            && a.parent.alloc.bytes == old(a.parent.alloc.bytes) - {a.self})
      && (!a.selfAllocated ==> a.parent.alloc == old(a.parent.alloc))
    ensures a == null ==> heap.released == old(heap.released) && heap.live == old(heap.live)
    ensures a != null ==>
      && (a.selfAllocated ==> a.self.At?)
      && heap.released == old(heap.released) + a.alloc.big + (if a.selfAllocated then [a.self.region] else [])
      && heap.live == old(heap.live) - Elements(a.alloc.big) - (if a.selfAllocated then {a.self.region} else {})
  {
    if a == null {
      return;
    }
    if a.parent == null {
      DestroyRoot(heap, a);
    } else {
      DestroyChild(heap, a, a.parent);
    }
  }

  /** arena_free as written on a child that arena_init placed in caller
      storage: only the teardown runs, because the cancel sits under the
      allocated test. The parent still holds the call that will pass the
      freed arena to arena_free again. */
  method DestroyInitedAsWritten(heap: Heap, a: Arena)
    requires heap.Valid() && a.Valid(heap.regionSize) && a.Live() && ChildOk(heap, a)
    requires a.parent != null && !a.selfAllocated
    modifies a`magic, heap`trace, heap`live, heap`released
    ensures !a.Live() && heap.trace == old(heap.trace) + old(a.Pending())
    ensures a.parent.Live() && Ran(FreeArena, a.self) in a.parent.Pending()
  {
    a.Teardown(heap);
    var i := IndexOf(a.parent.activeList, a.parentSlot);
    assert a.parent.Pending()[i] == Ran(FreeArena, a.self);
  }
}
