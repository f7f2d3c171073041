/** One arena: a bump page with per-class free lists for small blocks, an
    intrusive doubly-linked list of big blocks, and a table of deferred
    callbacks that run when the arena is torn down. The facts each method
    keeps are stated on values in Blocks, BigList and Registry; the methods
    here perform the steps of arena.c and call those lemmas. */
module Arenas {
  import opened SizeClasses
  import opened Memory
  import opened Sequences
  import opened BigList
  import opened Blocks
  import opened AllocState
  import opened Registry

  const MAGIC_FREE: nat := 0x65657266
  const MAGIC_ARENA: nat := 0x6e657261
  const MAGIC_DEFER: nat := 0x66656461

  /** The bytes after the control block that make up the first page. */
  const EXTRA_SIZE: nat := INIT_SIZE - ARENA_STRUCT_SIZE
  /** One defer slot: fn, user, prev, next. */
  const SLOT_SIZE: nat := 32
  /** magic and slot in front of the payload of a deferred allocation. */
  const DEFER_HEADER: nat := 16

  /** The header arena_defer_size puts in front of the copied payload. */
  datatype DeferHeader = DeferHeader(magic: nat, slot: nat)

  /** The slot table is a live block with room for n slots; there is no
      table before the first registration. */
  ghost predicate TableOk(table: Ptr, n: nat, caps: map<Ptr, nat>) {
    && (table == Null ==> n == 0)
    && (table != Null ==> table in caps && caps[table] >= SLOT_SIZE * n)
  }

  lemma TableKept(table: Ptr, n: nat, s: Alloc, t: Alloc)
    requires TableOk(table, n, s.caps) && Keeps(s, t)
    ensures TableOk(table, n, t.caps)
  {
  }

  lemma TableDropped(table: Ptr, n: nat, caps: map<Ptr, nat>, x: Ptr)
    requires TableOk(table, n, caps) && table != x
    ensures TableOk(table, n, caps - {x})
  {
  }

  /** dh is a live block of s: a defer header, then size bytes copied from
      data (zeros for no data). */
  ghost predicate HoldsCopy(s: Alloc, dh: Ptr, size: nat, data: Source) {
    && (data.Data? ==> size <= |data.b|)
    && dh in s.caps && s.caps[dh] == DEFER_HEADER + size
    && dh in s.bytes && |s.bytes[dh]| == DEFER_HEADER + size
    && s.bytes[dh][DEFER_HEADER..] == Fill(data, size)
  }

  /** Writing the copy after the header of a block of the right size makes
      it hold the copy. */
  lemma CopyHeld(s: Alloc, dh: Ptr, size: nat, data: Source)
    requires data.Data? ==> size <= |data.b|
    requires dh in s.caps && s.caps[dh] == DEFER_HEADER + size
    requires dh in s.bytes && |s.bytes[dh]| == DEFER_HEADER + size
    ensures HoldsCopy(Write(s, dh, Splice(s.bytes[dh], DEFER_HEADER, Fill(data, size))), dh, size, data)
  {
  }

  lemma HoldsKept(s: Alloc, t: Alloc, x: Ptr, dh: Ptr, size: nat, data: Source)
    requires HoldsCopy(s, dh, size, data) && KeepsBut(s, t, x) && dh != x
    ensures HoldsCopy(t, dh, size, data)
  {
  }

  class Arena {
    var magic: nat
    /** Where the control block lives: the first page starts here. */
    const self: Ptr

    /** page, pos, size, next_size, next_free, the big-list sentinels and
        the headers of every live block, updated by the steps of AllocState. */
    var alloc: Alloc

    var parent: Arena?
    var parentSlot: nat

    /** The block holding the slot table, and the table itself. */
    var defersPtr: Ptr
    var defers: seq<Slot>
    var numDefers: nat
    var activeHead: nat
    var freeHead: nat

    /** The control block was obtained by arena_create (not arena_init). */
    var selfAllocated: bool

    /** The headers of deferred allocations, by block. */
    var deferHeaders: map<Ptr, DeferHeader>

    /** The active and free slot lists, in link order. */
    ghost var activeList: seq<nat>
    ghost var freeList: seq<nat>

    predicate Live()
      reads this`magic
    {
      magic == MAGIC_ARENA
    }

    /** Cursor, carved blocks, free lists, capacity headers and big list,
        against the region sizes malloc handed out. */
    ghost predicate AllocValid(regions: map<nat, nat>)
      reads this`alloc
    {
      AllocOk(alloc, regions)
    }

    ghost predicate RegistryValid()
      reads this`defers, this`numDefers, this`activeHead, this`freeHead,
        this`activeList, this`freeList
    {
      RegistryOk(defers, numDefers, activeHead, freeHead, activeList, freeList)
    }

    /** The table lives in a block of this arena large enough for it. */
    ghost predicate TableValid()
      reads this`defersPtr, this`numDefers, this`alloc
    {
      TableOk(defersPtr, numDefers, alloc.caps)
    }

    ghost predicate Valid(regions: map<nat, nat>)
      reads this`alloc, this`defersPtr, this`defers, this`numDefers, this`activeHead, this`freeHead,
        this`activeList, this`freeList
    {
      self.At? && AllocValid(regions) && RegistryValid() && TableValid()
    }

    /** The calls teardown would make now, in order. */
    ghost function Pending(): seq<Event>
      reads this`defers, this`activeList
      requires forall k :: 0 <= k < |activeList| ==> activeList[k] < |defers|
    {
      Fired(defers, activeList)
    }

    /** arenaimp_init, after the fields the caller sets: the first page is the
        control block itself, with the cursor just past it. */
    constructor (base: Ptr, regions: map<nat, nat>, up: Arena?, slot: nat, owned: bool)
      requires base.At? && base.region in regions
      requires base.offset + INIT_SIZE <= regions[base.region]
      ensures Valid(regions) && Live()
      ensures self == base && parent == up && parentSlot == slot && selfAllocated == owned
      ensures alloc == Initial(base)
      ensures activeHead == NONE && freeHead == NONE && numDefers == 0 && defersPtr == Null
      ensures activeList == [] && freeList == [] && deferHeaders == map[] && Pending() == []
    {
      self := base;
      parent := up;
      parentSlot := slot;
      selfAllocated := owned;
      defersPtr := Null;
      defers := [];
      numDefers := 0;
      deferHeaders := map[];
      activeList := [];
      freeList := [];
      magic := MAGIC_ARENA;
      activeHead := NONE;
      freeHead := NONE;
      alloc := Initial(base);
      InitialOk(base, regions);
      Registry.EmptyOk();
    }

    /** The big path of aalloc_uninit_size: malloc header and payload, link
        the block right after the head sentinel, stamp the capacity. The
        payload is whatever malloc left there. */
    method AllocBig(heap: Heap, total: nat) returns (p: Ptr)
      requires heap.Valid() && AllocValid(heap.regionSize) && total > LARGEST_SMALL_CAPACITY
      modifies this`alloc, heap`nextRegion, heap`regionSize, heap`live
      ensures heap.Valid() && heap.Grew() && AllocValid(heap.regionSize)
      ensures p == Null ==> alloc == old(alloc) && heap.live == old(heap.live)
      ensures p != Null ==>
        && p == BigUser(old(heap.nextRegion)) && p !in old(alloc.caps) && p in alloc.bytes
        && alloc == PushBig(old(alloc), p.region, total, alloc.bytes[p])
        && heap.regionSize[p.region] == BIG_HEADER + total
        && heap.live == old(heap.live) + {p.region}
    {
      var base := heap.Malloc(BIG_HEADER + total);
      if base == Null {
        return Null;
      }
      // Zeros witnesses that the uninitialised contents chosen below exist.
      assert |Zeros(total)| == total;
      var junk: seq<byte> :| |junk| == total;
      PushBigOk(alloc, old(heap.regionSize), heap.regionSize, base.region, total, junk);
      p := BigUser(base.region);
      alloc := PushBig(alloc, base.region, total, junk);
    }

    /** First choice of the small path: reuse the head of the class free list. */
    method PopFree(heap: Heap, total: nat) returns (p: Ptr)
      requires heap.Valid() && AllocValid(heap.regionSize)
      requires total + SMALL_HEADER <= LARGEST_SIZE_CLASS && alloc.nextFree[ClassFor(total)] != []
      modifies this`alloc
      ensures heap.Valid() && AllocValid(heap.regionSize)
      ensures unchanged(heap`nextRegion, heap`regionSize, heap`live)
      ensures p == old(alloc.nextFree[ClassFor(total)][0]) && p !in old(alloc.caps) && p in alloc.bytes
      ensures alloc == Pop(old(alloc), total, alloc.bytes[p]) && GivesSmall(old(alloc), alloc, p, total)
    {
      // Zeros witnesses that the uninitialised contents chosen below exist.
      assert |Zeros(total)| == total;
      var junk: seq<byte> :| |junk| == total;
      p := alloc.nextFree[ClassOf(total + SMALL_HEADER)][0];
      PopStepOk(alloc, heap.regionSize, total, junk);
      PopGives(alloc, total, junk);
      alloc := Pop(alloc, total, junk);
    }

    /** Second choice: carve a chunk of the class at the bump cursor. */
    method CarveBump(heap: Heap, total: nat) returns (p: Ptr)
      requires heap.Valid() && AllocValid(heap.regionSize)
      requires total + SMALL_HEADER <= LARGEST_SIZE_CLASS
      requires alloc.size - alloc.pos >= Chunk(ClassFor(total))
      modifies this`alloc
      ensures heap.Valid() && AllocValid(heap.regionSize)
      ensures unchanged(heap`nextRegion, heap`regionSize, heap`live)
      ensures p == CarvedAt(old(alloc)) && p !in old(alloc.caps) && p !in old(alloc.small)
      ensures forall q :: q in old(alloc.small) && q.region == p.region ==>
        End(q, old(alloc.small)[q]) <= p.offset - SMALL_HEADER
      ensures p in alloc.bytes && alloc == Carve(old(alloc), total, alloc.bytes[p])
      ensures GivesSmall(old(alloc), alloc, p, total)
    {
      // Zeros witnesses that the uninitialised contents chosen below exist.
      assert |Zeros(total)| == total;
      var junk: seq<byte> :| |junk| == total;
      p := Offset(alloc.page, alloc.pos + SMALL_HEADER);
      CarveFresh(alloc, heap.regionSize, total);
      CarveStepOk(alloc, heap.regionSize, total, junk);
      CarveGives(alloc, total, junk);
      alloc := Carve(alloc, total, junk);
    }

    /** Last choice: grow next_size and request a page of at least that
        size. The request is aalloc_uninit_size(a, 1, page_size), which takes
        the big path since a page is larger than the largest class, so it is
        written out here as the big path. The block goes at the page's start,
        and the page is adopted when it leaves more room than the current one;
        next_size stays grown when malloc fails. */
    method NewPage(heap: Heap, total: nat) returns (p: Ptr, ghost pageJunk: seq<byte>, ghost junk: seq<byte>)
      requires heap.Valid() && AllocValid(heap.regionSize)
      requires total + SMALL_HEADER <= LARGEST_SIZE_CLASS
      modifies this`alloc, heap`nextRegion, heap`regionSize, heap`live
      ensures heap.Valid() && heap.Grew() && AllocValid(heap.regionSize)
      ensures p == Null ==>
        alloc == old(alloc).(nextSize := Grown(old(alloc.nextSize))) && heap.live == old(heap.live)
      ensures p != Null ==>
        && p == Offset(BigUser(old(heap.nextRegion)), SMALL_HEADER)
        && p !in old(alloc.caps) && p !in old(alloc.small) && BigUser(old(heap.nextRegion)) !in old(alloc.caps)
        && alloc == FreshPage(old(alloc), old(heap.nextRegion), total, pageJunk, junk)
        && heap.live == old(heap.live) + {old(heap.nextRegion)}
        && GivesSmall(old(alloc), alloc, p, total)
    {
      var a := alloc;
      var ns := a.nextSize * 2;
      if ns > MAX_PAGE_SIZE {
        ns := MAX_PAGE_SIZE;
      }
      var pageSize := ns;
      if pageSize < total + SMALL_HEADER {
        pageSize := total + SMALL_HEADER;
      }
      var base := heap.Malloc(BIG_HEADER + pageSize);
      if base == Null {
        GrownOk(a, heap.regionSize);
        alloc := a.(nextSize := ns);
        return Null, [], [];
      }
      // Zeros witnesses that the uninitialised contents chosen below exist.
      assert |Zeros(total)| == total && |Zeros(pageSize)| == pageSize;
      var pj: seq<byte> :| |pj| == pageSize;
      var j: seq<byte> :| |j| == total;
      pageJunk, junk := pj, j;
      FreshPageStepOk(a, old(heap.regionSize), heap.regionSize, base.region, total, pj, j);
      FreshPageGives(a, base.region, total, pj, j);
      p := Offset(BigUser(base.region), SMALL_HEADER);
      alloc := FreshPage(a, base.region, total, pj, j);
    }

    /** The small path of aalloc_uninit_size: free list, else bump carve,
        else a fresh page. The block handed out was not live, is carved for
        the request's class, and every live block stays as it was. */
    method AllocSmall(heap: Heap, total: nat) returns (p: Ptr)
      requires heap.Valid() && AllocValid(heap.regionSize)
      requires total + SMALL_HEADER <= LARGEST_SIZE_CLASS
      modifies this`alloc, heap`nextRegion, heap`regionSize, heap`live
      ensures heap.Valid() && heap.Grew() && AllocValid(heap.regionSize)
      ensures p == Null ==> alloc.caps == old(alloc.caps) && alloc.bytes == old(alloc.bytes)
      ensures p != Null ==>
        && p !in old(alloc.caps) && p in alloc.caps && alloc.caps[p] == total
        && p in alloc.bytes && |alloc.bytes[p]| == total && Keeps(old(alloc), alloc)
        && p in alloc.small && alloc.small[p] == ClassFor(total)
      ensures SmallStep(old(alloc), alloc, p, total, old(heap.nextRegion))
    {
      var c := ClassOf(total + SMALL_HEADER);
      if alloc.nextFree[c] != [] {
        p := PopFree(heap, total);
        PopIsStep(old(alloc), alloc, p, total, old(heap.nextRegion));
      } else if alloc.size - alloc.pos >= Chunk(c) {
        p := CarveBump(heap, total);
        CarveIsStep(old(alloc), alloc, p, total, old(heap.nextRegion));
      } else {
        ghost var pj, j;
        p, pj, j := NewPage(heap, total);
        if p == Null {
          GrowIsStep(old(alloc), alloc, total, old(heap.nextRegion));
        } else {
          FreshPageIsStep(old(alloc), alloc, p, total, old(heap.nextRegion), pj, j);
        }
      }
    }

    /** aalloc_uninit_size on an arena: a request whose block with its small
        header fits the largest class is small, any other is big. Either way
        the block was not live, is stamped with exactly the requested size,
        and every live block keeps its capacity and contents. */
    method AllocUninit(heap: Heap, total: nat) returns (p: Ptr)
      requires heap.Valid() && AllocValid(heap.regionSize) && Live()
      modifies this`alloc, heap`nextRegion, heap`regionSize, heap`live
      ensures heap.Valid() && heap.Grew() && AllocValid(heap.regionSize)
      ensures p == Null ==> alloc.caps == old(alloc.caps) && alloc.bytes == old(alloc.bytes)
      ensures p != Null ==>
        && p !in old(alloc.caps) && p in alloc.caps && alloc.caps[p] == total
        && p in alloc.bytes && |alloc.bytes[p]| == total && Keeps(old(alloc), alloc)
      ensures p != Null && total > LARGEST_SMALL_CAPACITY ==>
        && alloc.big == [p.region] + old(alloc.big) && p == BigUser(p.region)
        && heap.regionSize[p.region] == BIG_HEADER + total
      ensures UninitStep(old(alloc), alloc, p, total, old(heap.nextRegion)) && Keeps(old(alloc), alloc)
    {
      if total + SMALL_HEADER <= LARGEST_SIZE_CLASS {
        p := AllocSmall(heap, total);
      } else {
        p := AllocBig(heap, total);
        if p != Null {
          AddKeeps(old(alloc), alloc, p);
        }
      }
    }

    /** AllocUninit with the whole arena invariant kept: the slot table is a
        live block, and the allocation keeps every live block. The step is
        stated as `== true` so that it is checked as one fact, taken whole
        from AllocUninit, rather than branch by branch. */
    method Alloc(heap: Heap, total: nat) returns (p: Ptr)
      requires heap.Valid() && Valid(heap.regionSize) && Live()
      modifies this`alloc, heap`nextRegion, heap`regionSize, heap`live
      ensures heap.Valid() && heap.Grew() && Valid(heap.regionSize) && Live()
      ensures p == Null ==> alloc.caps == old(alloc.caps) && alloc.bytes == old(alloc.bytes)
      ensures p != Null ==>
        && p !in old(alloc.caps) && p in alloc.caps && alloc.caps[p] == total
        && p in alloc.bytes && |alloc.bytes[p]| == total && Keeps(old(alloc), alloc)
      ensures p != Null && total > LARGEST_SMALL_CAPACITY ==>
        && p == BigUser(p.region) && heap.regionSize[p.region] == BIG_HEADER + total
      ensures UninitStep(old(alloc), alloc, p, total, old(heap.nextRegion)) == true
    {
      p := AllocUninit(heap, total);
      TableKept(defersPtr, numDefers, old(alloc), alloc);
    }

    /** afree of a big block as arena.c has it: the neighbours read from the
        block's header are pointed past it, after the check that they point
        back at it, which always holds. The block is not released. */
    method UnlinkBlock(ghost regions: map<nat, nat>, p: Ptr)
      requires AllocValid(regions) && p in alloc.caps && alloc.caps[p] > LARGEST_SMALL_CAPACITY
      modifies this`alloc
      ensures AllocValid(regions)
      ensures p.At? && var n := BigBlock(p.region);
        && n in old(alloc.prev) && n in old(alloc.next)
        && old(alloc.prev)[n] in old(alloc.next) && old(alloc.next)[old(alloc.prev)[n]] == n
        && old(alloc.next)[n] in old(alloc.prev) && old(alloc.prev)[old(alloc.next)[n]] == n
      ensures alloc == UnlinkBig(old(alloc), p)
    {
      UnlinkBigOk(alloc, regions, p);
      alloc := UnlinkBig(alloc, p);
    }

    /** afree of a big block, releasing it after the unlink. */
    method FreeBig(heap: Heap, p: Ptr)
      requires heap.Valid() && AllocValid(heap.regionSize) && p in alloc.caps && alloc.caps[p] > LARGEST_SMALL_CAPACITY
      modifies this`alloc, heap`live, heap`released
      ensures heap.Valid() && AllocValid(heap.regionSize)
      ensures unchanged(heap`nextRegion, heap`regionSize)
      ensures p.At? && alloc == UnlinkBig(old(alloc), p)
      ensures heap.live == old(heap.live) - {p.region} && heap.released == old(heap.released) + [p.region]
    {
      heap.Release(p.region);
      UnlinkBlock(heap.regionSize, p);
    }

    /** afree on this arena: null is ignored, a small capacity sends the block
        to the head of its class list, a big one goes through FreeBig, which
        also releases the region that arena.c leaves allocated. */
    method Release(heap: Heap, p: Ptr)
      requires heap.Valid() && AllocValid(heap.regionSize) && (p == Null || p in alloc.caps)
      modifies this`alloc, heap`live, heap`released
      ensures heap.Valid() && AllocValid(heap.regionSize)
      ensures unchanged(heap`nextRegion, heap`regionSize)
      ensures p == Null ==> alloc == old(alloc)
      ensures p != Null ==> alloc.caps == old(alloc.caps) - {p} && alloc.bytes == old(alloc.bytes) - {p}
      ensures p != Null ==> FreedAs(old(alloc), alloc, p)
      ensures p == Null || old(alloc.caps[p]) <= LARGEST_SMALL_CAPACITY ==>
        heap.live == old(heap.live) && heap.released == old(heap.released)
      ensures p != Null && old(alloc.caps[p]) > LARGEST_SMALL_CAPACITY ==>
        p.At? && heap.live == old(heap.live) - {p.region} && heap.released == old(heap.released) + [p.region]
    {
      if p == Null {
        return;
      }
      var capacity := alloc.caps[p];
      if capacity <= LARGEST_SMALL_CAPACITY {
        PushFreeOk(alloc, heap.regionSize, p);
        alloc := PushFree(alloc, p);
      } else {
        FreeBig(heap, p);
      }
    }

    /** A write of data into the live block p from byte off on. */
    method Store(heap: Heap, p: Ptr, off: nat, data: seq<byte>)
      requires heap.Valid() && AllocValid(heap.regionSize) && p in alloc.caps && off + |data| <= alloc.caps[p]
      modifies this`alloc
      ensures heap.Valid() && AllocValid(heap.regionSize)
      ensures unchanged(heap`nextRegion, heap`regionSize, heap`live)
      ensures p in old(alloc.bytes) && alloc == Write(old(alloc), p, Splice(old(alloc.bytes[p]), off, data))
    {
      WriteOk(alloc, heap.regionSize, p, Splice(alloc.bytes[p], off, data));
      alloc := Write(alloc, p, Splice(alloc.bytes[p], off, data));
    }

    /** Store with the whole arena invariant kept. */
    method Overwrite(heap: Heap, p: Ptr, off: nat, data: seq<byte>)
      requires heap.Valid() && Valid(heap.regionSize) && Live() && p in alloc.caps && off + |data| <= alloc.caps[p]
      modifies this`alloc
      ensures heap.Valid() && Valid(heap.regionSize) && Live()
      ensures unchanged(this`magic, this`parent, this`parentSlot, this`selfAllocated, this`defersPtr, this`defers, this`numDefers)
      ensures unchanged(this`activeHead, this`freeHead, this`activeList, this`freeList, this`deferHeaders)
      ensures alloc.caps == old(alloc.caps) && p in old(alloc.bytes)
      ensures alloc.bytes == old(alloc.bytes)[p := Splice(old(alloc.bytes[p]), off, data)]
    {
      Store(heap, p, off, data);
    }

    /** afree on a live block, for callers that only need to know the block
        is gone: the same call as Release, seen through a smaller contract. */
    method Drop(heap: Heap, p: Ptr)
      requires heap.Valid() && AllocValid(heap.regionSize) && p != Null && p in alloc.caps
      modifies this`alloc, heap`live, heap`released
      ensures heap.Valid() && AllocValid(heap.regionSize)
      ensures unchanged(heap`nextRegion, heap`regionSize)
      ensures alloc.caps == old(alloc.caps) - {p} && alloc.bytes == old(alloc.bytes) - {p}
      ensures old(alloc.caps[p]) <= LARGEST_SMALL_CAPACITY ==> heap.live == old(heap.live) && heap.released == old(heap.released)
      ensures old(alloc.caps[p]) > LARGEST_SMALL_CAPACITY ==>
        p.At? && heap.live == old(heap.live) - {p.region} && heap.released == old(heap.released) + [p.region]
    {
      Release(heap, p);
    }

    /** Drop for a block other than the slot table: the arena stays valid. */
    method DropBlock(heap: Heap, p: Ptr)
      requires heap.Valid() && Valid(heap.regionSize) && p != Null && p in alloc.caps && p != defersPtr
      modifies this`alloc, heap`live, heap`released
      ensures heap.Valid() && Valid(heap.regionSize)
      ensures unchanged(heap`nextRegion, heap`regionSize)
      ensures unchanged(this`defers, this`numDefers, this`activeList, this`freeList, this`deferHeaders)
      ensures alloc.caps == old(alloc.caps) - {p} && alloc.bytes == old(alloc.bytes) - {p}
      ensures old(alloc.caps[p]) <= LARGEST_SMALL_CAPACITY ==> heap.live == old(heap.live) && heap.released == old(heap.released)
      ensures old(alloc.caps[p]) > LARGEST_SMALL_CAPACITY ==>
        p.At? && heap.live == old(heap.live) - {p.region} && heap.released == old(heap.released) + [p.region]
    {
      Drop(heap, p);
      TableDropped(defersPtr, numDefers, old(alloc.caps), p);
    }

    /** The copying half of arealloc_size's moving path: a fresh block of
        newCap bytes that starts with the contents of ptr. */
    method CopyOut(heap: Heap, ptr: Ptr, newCap: nat) returns (r: Ptr)
      requires heap.Valid() && AllocValid(heap.regionSize) && Live()
      requires ptr in alloc.caps && alloc.caps[ptr] <= newCap
      modifies this`alloc, heap`nextRegion, heap`regionSize, heap`live
      ensures heap.Valid() && heap.Grew() && AllocValid(heap.regionSize)
      ensures r == Null ==> alloc.caps == old(alloc.caps) && alloc.bytes == old(alloc.bytes)
      ensures r != Null ==>
        && r !in old(alloc.caps) && r in alloc.caps && alloc.caps[r] == newCap
        && r in alloc.bytes && |alloc.bytes[r]| == newCap && ptr in old(alloc.bytes)
        && alloc.bytes[r][..old(alloc.caps[ptr])] == old(alloc.bytes[ptr])
        && Keeps(old(alloc), alloc)
    {
      ghost var a0 := alloc;
      r := AllocUninit(heap, newCap);
      if r != Null {
        ghost var a1 := alloc;
        Store(heap, r, 0, alloc.bytes[ptr]);
        WriteKeeps(old(alloc), a1, r, alloc.bytes[r]);
      }
    }

    /** The moving path of arealloc_size: a fresh block of newCap bytes
        receives the contents of ptr, then ptr is freed. When the allocation
        fails, nothing is freed. */
    method Move(heap: Heap, ptr: Ptr, newCap: nat) returns (r: Ptr)
      requires heap.Valid() && AllocValid(heap.regionSize) && Live()
      requires ptr != Null && ptr in alloc.caps && alloc.caps[ptr] <= newCap
      modifies this`alloc, heap`nextRegion, heap`regionSize, heap`live, heap`released
      ensures heap.Valid() && heap.Grew() && AllocValid(heap.regionSize)
      ensures r == Null ==> alloc.caps == old(alloc.caps) && alloc.bytes == old(alloc.bytes)
      ensures r != Null ==>
        && r !in old(alloc.caps) && ptr !in alloc.caps && r in alloc.caps && alloc.caps[r] == newCap
        && r in alloc.bytes && |alloc.bytes[r]| == newCap && ptr in old(alloc.bytes)
        && alloc.bytes[r][..old(alloc.caps[ptr])] == old(alloc.bytes[ptr])
        && KeepsBut(old(alloc), alloc, ptr)
    {
      r := CopyOut(heap, ptr, newCap);
      if r != Null {
        ghost var a1 := alloc;
        Drop(heap, ptr);
        DropKeeps(old(alloc), a1, alloc, ptr);
      }
    }

    /** arealloc_size on this arena: null grows into a fresh block (or stays
        null for a count of 0); a request within the capacity keeps the
        block; otherwise a block of twice the capacity, or of the request if
        larger, receives the old contents and the old block is freed. When
        that allocation fails the old block is untouched. */
    method Realloc(heap: Heap, size: nat, count: nat, ptr: Ptr) returns (r: Ptr)
      requires heap.Valid() && AllocValid(heap.regionSize) && (ptr == Null || ptr in alloc.caps)
      requires Live() || (ptr == Null && count == 0) || (ptr != Null && size * count <= alloc.caps[ptr])
      modifies this`alloc, heap`nextRegion, heap`regionSize, heap`live, heap`released
      ensures heap.Valid() && heap.Grew() && AllocValid(heap.regionSize)
      ensures r == Null ==> alloc.caps == old(alloc.caps) && alloc.bytes == old(alloc.bytes)
      ensures ptr == Null && count == 0 ==> r == Null
      ensures r != Null ==> r in alloc.caps && alloc.caps[r] >= size * count && KeepsBut(old(alloc), alloc, ptr)
      ensures ptr == Null && r != Null ==>
        && r !in old(alloc.caps) && r in alloc.caps && alloc.caps[r] == size * count
        && r in alloc.bytes && |alloc.bytes[r]| == size * count && Keeps(old(alloc), alloc)
      ensures ptr != Null && size * count <= old(alloc.caps[ptr]) ==> r == ptr && alloc == old(alloc)
      ensures ptr != Null && size * count > old(alloc.caps[ptr]) && r != Null ==>
        var capacity := old(alloc.caps[ptr]);
        && r !in old(alloc.caps) && ptr !in alloc.caps && r in alloc.caps
        && alloc.caps[r] == (if size * count >= 2 * capacity then size * count else 2 * capacity)
        && r in alloc.bytes && |alloc.bytes[r]| == alloc.caps[r] && ptr in old(alloc.bytes)
        && alloc.bytes[r][..capacity] == old(alloc.bytes[ptr])
        && KeepsBut(old(alloc), alloc, ptr)
    {
      if ptr == Null {
        if count == 0 {
          return Null;
        }
        r := AllocUninit(heap, size * count);
        return;
      }
      var capacity := alloc.caps[ptr];
      var total := size * count;
      if total <= capacity {
        return ptr;
      }
      var newCap := capacity * 2;
      if total >= newCap {
        newCap := total;
      }
      r := Move(heap, ptr, newCap);
    }

    /** Realloc of a block other than the slot table, with the whole arena
        invariant kept and the outcome stated on the arena's blocks. */
    method Resize(heap: Heap, size: nat, count: nat, ptr: Ptr) returns (r: Ptr)
      requires heap.Valid() && Valid(heap.regionSize) && Live()
      requires ptr == Null || (ptr in alloc.caps && ptr != defersPtr)
      modifies this`alloc, heap`nextRegion, heap`regionSize, heap`live, heap`released
      ensures heap.Valid() && Valid(heap.regionSize) && Live() && defersPtr == old(defersPtr)
      ensures Resized(old(alloc.caps), old(alloc.bytes), alloc.caps, alloc.bytes, ptr, size, count, r)
    {
      r := Realloc(heap, size, count, ptr);
    }

    /** arena_ext_defer when the free list is not empty: its head leaves the
        free list and becomes the head of the active list. */
    method Reuse(fn: Callback, user: Ptr) returns (slot: nat)
      requires RegistryValid() && freeHead != NONE
      modifies this`defers, this`activeHead, this`freeHead, this`activeList, this`freeList
      ensures RegistryValid()
      ensures old(freeList) != [] && slot == old(freeList)[0] && slot < numDefers
      ensures activeList == [slot] + old(activeList) && freeList == old(freeList)[1..]
      ensures Pending() == [Ran(fn, user)] + old(Pending())
      ensures defers[slot] == Slot(fn, user, NONE, old(activeHead))
    {
      ReuseOk(defers, numDefers, activeList, freeList, fn, user);
      slot := freeHead;
      freeHead := defers[slot].next;
      defers := LinkHead(defers, slot, fn, user, activeHead);
      activeHead := slot;
      activeList := [slot] + activeList;
      freeList := freeList[1..];
    }

    /** The arealloc of arena_ext_defer: the slot table, resized to hold n
        slots, seen through the facts the registration needs. */
    method ResizeTable(heap: Heap, n: nat) returns (p: Ptr)
      requires heap.Valid() && AllocValid(heap.regionSize) && Live() && TableValid() && n > 0
      modifies this`alloc, heap`nextRegion, heap`regionSize, heap`live, heap`released
      ensures heap.Valid() && heap.Grew() && AllocValid(heap.regionSize)
      ensures p == Null ==> alloc.caps == old(alloc.caps) && alloc.bytes == old(alloc.bytes)
      ensures p != Null ==> p in alloc.caps && alloc.caps[p] >= SLOT_SIZE * n && KeepsBut(old(alloc), alloc, defersPtr)
      ensures p != Null ==> p == defersPtr || p !in old(alloc.caps)
    {
      p := Realloc(heap, SLOT_SIZE, n, defersPtr);
    }

    /** The registration half of arena_ext_defer's growing path, once the
        table has room: the new last slot becomes the head of the active list. */
    method Append(fn: Callback, user: Ptr) returns (slot: nat)
      requires RegistryValid() && freeHead == NONE && numDefers + 1 < NONE
      modifies this`defers, this`numDefers, this`activeHead, this`activeList
      ensures RegistryValid()
      ensures slot == old(numDefers) && numDefers == slot + 1
      ensures activeList == [slot] + old(activeList) && freeList == []
      ensures Pending() == [Ran(fn, user)] + old(Pending())
      ensures defers[slot] == Slot(fn, user, NONE, old(activeHead))
    {
      var blank := Slot(NoCallback, Null, NONE, NONE);
      GrowOk(defers, numDefers, activeList, fn, user, blank);
      slot := numDefers;
      defers := LinkHead(defers + [blank], slot, fn, user, activeHead);
      numDefers := numDefers + 1;
      activeHead := slot;
      activeList := [slot] + activeList;
    }

    /** arena_ext_defer when every slot is taken: the table grows by one slot
        through arealloc, and the new last slot becomes the head of the
        active list. When the table cannot grow, nothing is registered. */
    method Grow(heap: Heap, fn: Callback, user: Ptr) returns (slot: nat)
      requires heap.Valid() && Valid(heap.regionSize) && Live()
      requires freeHead == NONE && numDefers + 1 < NONE
      modifies this`alloc, this`defersPtr, this`defers, this`numDefers, this`activeHead,
        this`activeList, heap`nextRegion, heap`regionSize, heap`live, heap`released
      ensures heap.Valid() && heap.Grew() && Valid(heap.regionSize)
      ensures KeepsBut(old(alloc), alloc, old(defersPtr))
      ensures defersPtr == old(defersPtr) || defersPtr !in old(alloc.caps)
      ensures slot == NONE ==>
        && defers == old(defers) && numDefers == old(numDefers) && activeList == old(activeList)
        && activeHead == old(activeHead) && defersPtr == old(defersPtr)
        && alloc.caps == old(alloc.caps) && alloc.bytes == old(alloc.bytes)
      ensures slot != NONE ==>
        && slot == old(numDefers) && numDefers == slot + 1
        && activeList == [slot] + old(activeList) && freeList == []
        && Pending() == [Ran(fn, user)] + old(Pending())
        && defers[slot] == Slot(fn, user, NONE, old(activeHead))
    {
      var p := ResizeTable(heap, numDefers + 1);
      if p == Null {
        return NONE;
      }
      defersPtr := p;
      slot := Append(fn, user);
    }

    /** arena_ext_defer: register fn(user) to run at teardown, in a slot from
        the free list when there is one, else in a new slot at the end of a
        grown table. The slot becomes the head of the active list, so
        teardown runs it before every older registration. NONE when the
        table cannot grow; nothing is registered then. */
    method ExtDefer(heap: Heap, fn: Callback, user: Ptr) returns (slot: nat)
      requires heap.Valid() && Valid(heap.regionSize) && Live() && fn != NoCallback
      requires numDefers + 1 < NONE
      modifies this`alloc, this`defersPtr, this`defers, this`numDefers, this`activeHead, this`freeHead,
        this`activeList, this`freeList, heap`nextRegion, heap`regionSize, heap`live, heap`released
      ensures heap.Valid() && heap.Grew() && Valid(heap.regionSize)
      ensures KeepsBut(old(alloc), alloc, old(defersPtr))
      ensures defersPtr == old(defersPtr) || defersPtr !in old(alloc.caps)
      ensures slot == NONE ==>
        && old(freeList) == [] && defers == old(defers) && numDefers == old(numDefers) && defersPtr == old(defersPtr)
        && activeList == old(activeList) && freeList == old(freeList)
        && alloc.caps == old(alloc.caps) && alloc.bytes == old(alloc.bytes)
      ensures slot != NONE ==>
        && activeList == [slot] + old(activeList) && slot < numDefers
        && Pending() == [Ran(fn, user)] + old(Pending())
        && defers[slot] == Slot(fn, user, NONE, old(activeHead))
      ensures slot != NONE && old(freeList) != [] ==>
        slot == old(freeList)[0] && freeList == old(freeList)[1..] && numDefers == old(numDefers) && alloc == old(alloc)
      ensures slot != NONE && old(freeList) == [] ==>
        slot == old(numDefers) && numDefers == slot + 1 && freeList == []
    {
      if freeHead != NONE {
        slot := Reuse(fn, user);
      } else {
        slot := Grow(heap, fn, user);
      }
    }

    /** arena_ext_redefer: the slot's call becomes fn(user); the lists stay as
        they are, so the call keeps its place in the teardown order. */
    method ExtRedefer(slot: nat, fn: Callback, user: Ptr)
      requires RegistryValid() && Live() && slot < numDefers
      modifies this`defers
      ensures RegistryValid()
      ensures defers == old(defers)[slot := old(defers[slot]).(fn := fn, user := user)]
      ensures forall k :: 0 <= k < |activeList| && activeList[k] == slot ==>
        Pending() == old(Pending())[k := Ran(fn, user)]
      ensures slot !in activeList ==> Pending() == old(Pending())
    {
      RedeferOk(defers, numDefers, activeList, freeList, slot, fn, user);
      defers := defers[slot := defers[slot].(fn := fn, user := user)];
    }

    /** arena_ext_cancel: optionally run the slot's call now, unlink the slot
        from the active list and push it, cleared, on the free list. Every
        other registration keeps its call and its place. */
    method ExtCancel(heap: Heap, slot: nat, run: bool)
      requires RegistryValid() && Live() && slot in activeList
      modifies this`defers, this`activeHead, this`freeHead, this`activeList, this`freeList, heap`trace
      ensures RegistryValid()
      ensures heap.trace == old(heap.trace) + (if run then [Ran(old(defers[slot]).fn, old(defers[slot]).user)] else [])
      ensures activeList == Without(old(activeList), slot) && freeList == [slot] + old(freeList)
      ensures freeHead == slot && defers[slot] == Slot(NoCallback, Null, NONE, old(freeHead))
      ensures Pending() == Fired(old(defers), activeList)
    {
      var ds := defers[slot];
      CancelSlot(defers, numDefers, activeHead, freeHead, activeList, freeList, slot);
      if run {
        heap.Run(ds.fn, ds.user);
      }
      defers, activeHead, freeHead, activeList, freeList :=
        CancelTable(defers, slot, freeHead), HeadAfterCancel(defers, slot, activeHead), slot,
        Without(activeList, slot), [slot] + freeList;
    }

    /** The block of arena_defer_size before registration: the defer header
        followed by size bytes copied from data (zeros for no data). */
    method CopyBlock(heap: Heap, size: nat, data: Source) returns (dh: Ptr)
      requires heap.Valid() && AllocValid(heap.regionSize) && Live()
      requires data.Data? ==> size <= |data.b|
      modifies this`alloc, heap`nextRegion, heap`regionSize, heap`live
      ensures heap.Valid() && heap.Grew() && AllocValid(heap.regionSize) && Keeps(old(alloc), alloc)
      ensures unchanged(this`defersPtr, this`defers, this`numDefers, this`activeHead, this`freeHead)
      ensures unchanged(this`activeList, this`freeList, this`deferHeaders, this`magic)
      ensures dh != Null ==>
        dh.At? && dh !in old(alloc.caps) && HoldsCopy(alloc, dh, size, data)
    {
      dh := AllocUninit(heap, DEFER_HEADER + size);
      if dh != Null {
        ghost var a1 := alloc;
        Store(heap, dh, DEFER_HEADER, Fill(data, size));
        CopyHeld(a1, dh, size, data);
        WriteKeeps(old(alloc), a1, dh, alloc.bytes[dh]);
        LiveAt(alloc, heap.regionSize, dh);
      }
    }

    /** CopyBlock with the whole arena invariant kept. */
    method DeferBlock(heap: Heap, size: nat, data: Source) returns (dh: Ptr)
      requires heap.Valid() && Valid(heap.regionSize) && Live()
      requires data.Data? ==> size <= |data.b|
      modifies this`alloc, heap`nextRegion, heap`regionSize, heap`live
      ensures heap.Valid() && heap.Grew() && Valid(heap.regionSize) && Keeps(old(alloc), alloc)
      ensures unchanged(this`defersPtr, this`defers, this`numDefers, this`activeHead, this`freeHead)
      ensures unchanged(this`activeList, this`freeList, this`deferHeaders, this`magic)
      ensures dh != Null ==>
        dh.At? && dh !in old(alloc.caps) && dh != defersPtr && HoldsCopy(alloc, dh, size, data)
    {
      dh := CopyBlock(heap, size, data);
      TableKept(defersPtr, numDefers, old(alloc), alloc);
    }

    /** ExtDefer for the block dh, recording the slot in its header, with
        only what Register needs. */
    method Enroll(heap: Heap, fn: Callback, dh: Ptr) returns (slot: nat)
      requires heap.Valid() && Valid(heap.regionSize) && Live() && fn != NoCallback
      requires numDefers + 1 < NONE && dh.At?
      modifies this`alloc, this`defersPtr, this`defers, this`numDefers, this`activeHead, this`freeHead,
        this`activeList, this`freeList, this`deferHeaders,
        heap`nextRegion, heap`regionSize, heap`live, heap`released
      ensures heap.Valid() && heap.Grew() && Valid(heap.regionSize)
      ensures slot == NONE ==>
        && defers == old(defers) && numDefers == old(numDefers) && defersPtr == old(defersPtr)
        && activeList == old(activeList) && freeList == old(freeList) && deferHeaders == old(deferHeaders)
        && alloc.caps == old(alloc.caps) && alloc.bytes == old(alloc.bytes)
      ensures slot != NONE ==>
        && KeepsBut(old(alloc), alloc, old(defersPtr))
        && activeList == [slot] + old(activeList)
        && Pending() == [Ran(fn, Offset(dh, DEFER_HEADER))] + old(Pending())
        && deferHeaders == old(deferHeaders)[dh := DeferHeader(MAGIC_DEFER, slot)]
    {
      slot := ExtDefer(heap, fn, Offset(dh, DEFER_HEADER));
      if slot != NONE {
        deferHeaders := deferHeaders[dh := DeferHeader(MAGIC_DEFER, slot)];
      }
    }

    /** The registration half of arena_defer_size: fn is registered with the
        payload after the header of dh as its argument, and the header
        records the slot; when no slot can be had, dh is freed again. */
    method Register(heap: Heap, fn: Callback, dh: Ptr, ghost size: nat, ghost data: Source, ghost a0: Alloc)
      returns (copy: Ptr)
      requires heap.Valid() && Valid(heap.regionSize) && Live() && fn != NoCallback
      requires numDefers + 1 < NONE && dh.At? && HoldsCopy(alloc, dh, size, data) && dh != defersPtr
      requires Keeps(a0, alloc) && dh !in a0.caps
      modifies this`alloc, this`defersPtr, this`defers, this`numDefers, this`activeHead, this`freeHead,
        this`activeList, this`freeList, this`deferHeaders,
        heap`nextRegion, heap`regionSize, heap`live, heap`released
      ensures heap.Valid() && heap.Grew() && Valid(heap.regionSize) && KeepsBut(a0, alloc, old(defersPtr))
      ensures copy == Null ==>
        && defers == old(defers) && numDefers == old(numDefers)
        && activeList == old(activeList) && freeList == old(freeList) && deferHeaders == old(deferHeaders)
        && alloc.caps == old(alloc.caps) - {dh} && alloc.bytes == old(alloc.bytes) - {dh}
      ensures copy != Null ==>
        && copy == Offset(dh, DEFER_HEADER) && KeepsBut(old(alloc), alloc, old(defersPtr))
        && HoldsCopy(alloc, dh, size, data)
        && activeList != [] && activeList == [activeList[0]] + old(activeList)
        && deferHeaders == old(deferHeaders)[dh := DeferHeader(MAGIC_DEFER, activeList[0])]
        && Pending() == [Ran(fn, copy)] + old(Pending())
    {
      copy := Offset(dh, DEFER_HEADER);
      var slot := Enroll(heap, fn, dh);
      if slot == NONE {
        DropBlock(heap, dh);
        copy := Null;
        AddDropKeeps(a0, old(alloc), alloc, dh, old(defersPtr));
      } else {
        HoldsKept(old(alloc), alloc, old(defersPtr), dh, size, data);
        KeepsThenBut(a0, old(alloc), alloc, old(defersPtr));
      }
    }

    /** arena_defer_size: a block holding a copy of size bytes of data (zeros
        for no data) behind a defer header, with fn(copy) registered to run
        at teardown; the header records the magic and the slot. Null when
        the block or the registration cannot be had; a block whose
        registration failed is freed again. */
    method DeferSize(heap: Heap, fn: Callback, size: nat, data: Source) returns (copy: Ptr, ghost dh: Ptr)
      requires heap.Valid() && Valid(heap.regionSize) && Live() && fn != NoCallback
      requires numDefers + 1 < NONE && (data.Data? ==> size <= |data.b|)
      modifies this`alloc, this`defersPtr, this`defers, this`numDefers, this`activeHead, this`freeHead,
        this`activeList, this`freeList, this`deferHeaders,
        heap`nextRegion, heap`regionSize, heap`live, heap`released
      ensures heap.Valid() && heap.Grew() && Valid(heap.regionSize)
      ensures KeepsBut(old(alloc), alloc, old(defersPtr))
      ensures copy == Null ==>
        && defers == old(defers) && numDefers == old(numDefers)
        && activeList == old(activeList) && freeList == old(freeList) && deferHeaders == old(deferHeaders)
      ensures copy != Null ==>
        && dh.At? && copy == Offset(dh, DEFER_HEADER) && dh !in old(alloc.caps) && HoldsCopy(alloc, dh, size, data)
        && activeList != [] && activeList == [activeList[0]] + old(activeList)
        && deferHeaders == old(deferHeaders)[dh := DeferHeader(MAGIC_DEFER, activeList[0])]
        && Pending() == [Ran(fn, copy)] + old(Pending())
      ensures copy == Null ==> dh == Null || (dh !in old(alloc.caps) && dh !in alloc.caps)
    {
      var block := DeferBlock(heap, size, data);
      dh := block;
      if block == Null {
        KeepsAll(old(alloc), alloc, defersPtr);
        return Null, dh;
      }
      copy := Register(heap, fn, block, size, data, old(alloc));
    }

    /** The first loop of arena_free: from the active head, each slot's call
        is made and the walk follows the slot's next index, so the calls are
        made head to tail, newest registration first. */
    method RunPending(heap: Heap)
      requires RegistryValid()
      modifies heap`trace
      ensures heap.trace == old(heap.trace) + Pending()
    {
      var slot := activeHead;
      ghost var k := 0;
      while slot != NONE
        invariant k <= |activeList| && slot == HeadOf(activeList[k..])
        invariant heap.trace == old(heap.trace) + Fired(defers, activeList[..k])
        decreases |activeList| - k
      {
        assert slot == activeList[k] && slot < |defers|;
        heap.Run(defers[slot].fn, defers[slot].user);
        assert activeList[..k + 1] == activeList[..k] + [slot];
        assert Fired(defers, activeList[..k + 1]) == Fired(defers, activeList[..k]) + [Ran(defers[slot].fn, defers[slot].user)];
        slot := defers[slot].next;
        k := k + 1;
      }
      assert activeList[..k] == activeList;
    }

    /** The second loop of arena_free: from the head sentinel's next to the
        tail sentinel, each big block is freed; the walk visits exactly the
        linked blocks, in list order. */
    method ReleaseBig(heap: Heap)
      requires AllocValid(heap.regionSize)
      modifies heap`live, heap`released
      ensures heap.released == old(heap.released) + alloc.big
      ensures heap.live == old(heap.live) - Elements(alloc.big)
    {
      var node := alloc.next[BigHead];
      ghost var k := 0;
      while node != BigTail
        invariant k <= |alloc.big| && node == NodeAt(alloc.big, k)
        invariant heap.released == old(heap.released) + alloc.big[..k]
        invariant heap.live == old(heap.live) - Elements(alloc.big[..k])
        decreases |alloc.big| - k
      {
        var next := alloc.next[node];
        heap.Release(node.region);
        assert alloc.big[..k + 1] == alloc.big[..k] + [node.region];
        node := next;
        k := k + 1;
      }
      assert alloc.big[..k] == alloc.big;
    }

    /** arena_free on a live arena, up to the release of the control block:
        the magic becomes FREE, so a second teardown is refused; the pending
        calls are made head to tail; every linked big block is freed. */
    method Teardown(heap: Heap)
      requires Valid(heap.regionSize) && Live()
      modifies this`magic, heap`trace, heap`live, heap`released
      ensures magic == MAGIC_FREE && !Live()
      ensures heap.trace == old(heap.trace) + Pending()
      ensures heap.released == old(heap.released) + alloc.big
      ensures heap.live == old(heap.live) - Elements(alloc.big)
    {
      magic := MAGIC_FREE;
      RunPending(heap);
      ReleaseBig(heap);
    }

    /** arena_cancel_retain: the registration behind the deferred allocation
        at ptr is cancelled (its call made first when run is set) and the
        header is marked FREE; the block itself stays live. Null is ignored. */
    method CancelRetain(heap: Heap, ptr: Ptr, run: bool)
      requires RegistryValid() && Live()
      requires ptr != Null ==>
        && ptr.At? && DEFER_HEADER <= ptr.offset && Back(ptr, DEFER_HEADER) in deferHeaders
        && deferHeaders[Back(ptr, DEFER_HEADER)].magic == MAGIC_DEFER
        && deferHeaders[Back(ptr, DEFER_HEADER)].slot in activeList
      modifies this`defers, this`activeHead, this`freeHead, this`activeList, this`freeList,
        this`deferHeaders, heap`trace
      ensures RegistryValid()
      ensures unchanged(this`alloc, this`defersPtr, this`numDefers, heap`nextRegion, heap`regionSize, heap`caps, heap`bytes)
      ensures ptr == Null ==>
        && defers == old(defers) && activeList == old(activeList) && freeList == old(freeList)
        && deferHeaders == old(deferHeaders) && heap.trace == old(heap.trace)
      ensures ptr != Null ==>
        var dh := Back(ptr, DEFER_HEADER);
        var slot := old(deferHeaders[dh]).slot;
        && activeList == Without(old(activeList), slot) && freeList == [slot] + old(freeList)
        && heap.trace == old(heap.trace) + (if run then [Ran(old(defers[slot]).fn, old(defers[slot]).user)] else [])
        && Pending() == Fired(old(defers), activeList)
        && deferHeaders == old(deferHeaders)[dh := DeferHeader(MAGIC_FREE, NONE)]
    {
      if ptr == Null {
        return;
      }
      var dh := Back(ptr, DEFER_HEADER);
      ExtCancel(heap, deferHeaders[dh].slot, run);
      deferHeaders := deferHeaders[dh := DeferHeader(MAGIC_FREE, NONE)];
    }

    /** arena_cancel: CancelRetain, then the block with its header is freed. */
    method Cancel(heap: Heap, ptr: Ptr, run: bool)
      requires heap.Valid() && Valid(heap.regionSize) && Live()
      requires ptr != Null ==>
        && ptr.At? && DEFER_HEADER <= ptr.offset && Back(ptr, DEFER_HEADER) in deferHeaders
        && deferHeaders[Back(ptr, DEFER_HEADER)].magic == MAGIC_DEFER
        && deferHeaders[Back(ptr, DEFER_HEADER)].slot in activeList
        && Back(ptr, DEFER_HEADER) in alloc.caps && Back(ptr, DEFER_HEADER) != defersPtr
      modifies this`alloc, this`defers, this`activeHead, this`freeHead, this`activeList, this`freeList,
        this`deferHeaders, heap`trace, heap`live, heap`released
      ensures heap.Valid() && Valid(heap.regionSize)
      ensures ptr == Null ==>
        && alloc == old(alloc) && activeList == old(activeList) && heap.trace == old(heap.trace)
      ensures ptr != Null ==>
        var dh := Back(ptr, DEFER_HEADER);
        var slot := old(deferHeaders[dh]).slot;
        && activeList == Without(old(activeList), slot) && freeList == [slot] + old(freeList)
        && heap.trace == old(heap.trace) + (if run then [Ran(old(defers[slot]).fn, old(defers[slot]).user)] else [])
        && Pending() == Fired(old(defers), activeList)
        && deferHeaders == old(deferHeaders)[dh := DeferHeader(MAGIC_FREE, NONE)]
        && alloc.caps == old(alloc.caps) - {dh} && alloc.bytes == old(alloc.bytes) - {dh}
    {
      CancelRetain(heap, ptr, run);
      if ptr != Null {
        DropBlock(heap, Back(ptr, DEFER_HEADER));
      }
    }

    /** aalloc_size on this arena: a fresh block of total zero bytes, with
        the whole arena invariant kept. */
    method Zeroed(heap: Heap, total: nat) returns (p: Ptr)
      requires heap.Valid() && Valid(heap.regionSize) && Live()
      modifies this`alloc, heap`nextRegion, heap`regionSize, heap`live
      ensures heap.Valid() && heap.Grew() && Valid(heap.regionSize)
      ensures p == Null ==> alloc.caps == old(alloc.caps) && alloc.bytes == old(alloc.bytes)
      ensures p != Null ==>
        && p !in old(alloc.caps) && p in alloc.caps && alloc.caps[p] == total && p != defersPtr
        && p in alloc.bytes && alloc.bytes[p] == Zeros(total) && Keeps(old(alloc), alloc)
      ensures p != Null && total > LARGEST_SMALL_CAPACITY ==>
        && p == BigUser(p.region) && heap.regionSize[p.region] == BIG_HEADER + total
    {
      p := Alloc(heap, total);
      if p != Null {
        ghost var a1 := alloc;
        Overwrite(heap, p, 0, Zeros(total));
        RewriteKeeps(old(alloc), a1, alloc, p);
      }
    }

    /** This arena's half of arena_create for a child: a zeroed block of the
        first page's size for the child's control block, and the child's
        teardown registered with the block as its argument. When the
        registration fails the block, blk, is freed again and Null returned. */
    method Spawn(heap: Heap) returns (base: Ptr, slot: nat, ghost blk: Ptr)
      requires heap.Valid() && Valid(heap.regionSize) && Live() && numDefers + 1 < NONE
      modifies this`alloc, this`defersPtr, this`defers, this`numDefers, this`activeHead, this`freeHead,
        this`activeList, this`freeList, heap`nextRegion, heap`regionSize, heap`live, heap`released
      ensures heap.Valid() && heap.Grew() && Valid(heap.regionSize)
      ensures base == Null ==> activeList == old(activeList) && Pending() == old(Pending())
      ensures base == Null ==> Keeps(old(alloc), alloc)
      ensures KeepsBut(old(alloc), alloc, old(defersPtr))
      ensures base != Null ==>
        && base.At? && base.region in heap.regionSize && base.offset + INIT_SIZE <= heap.regionSize[base.region]
        && base !in old(alloc.caps) && base in alloc.caps && alloc.caps[base] == INIT_SIZE && base != defersPtr
        && activeList == [slot] + old(activeList) && slot < |defers|
        && defers[slot].fn == FreeArena && defers[slot].user == base
        && Pending() == [Ran(FreeArena, base)] + old(Pending())
      ensures base == Null ==> blk == Null || (blk !in old(alloc.caps) && blk !in alloc.caps)
      ensures base != Null ==> blk == base
    {
      base := Zeroed(heap, INIT_SIZE);
      blk := base;
      if base == Null {
        KeepsAll(old(alloc), alloc, old(defersPtr));
        return Null, NONE, blk;
      }
      ghost var a1 := alloc;
      slot := Enlist(heap, base);
      if slot == NONE {
        AddDropKeeps(old(alloc), a1, alloc, base, old(defersPtr));
        return Null, NONE, blk;
      }
      KeepsThenBut(old(alloc), a1, alloc, old(defersPtr));
    }

    /** The registration half of Spawn: the teardown of the child whose
        control block is base is registered, or, when the slot table cannot
        grow, base is freed again. */
    method Enlist(heap: Heap, base: Ptr) returns (slot: nat)
      requires heap.Valid() && Valid(heap.regionSize) && Live() && numDefers + 1 < NONE
      requires base != Null && base in alloc.caps && base != defersPtr
      modifies this`alloc, this`defersPtr, this`defers, this`numDefers, this`activeHead, this`freeHead,
        this`activeList, this`freeList, heap`nextRegion, heap`regionSize, heap`live, heap`released
      ensures heap.Valid() && heap.Grew() && Valid(heap.regionSize)
      ensures slot == NONE ==>
        && activeList == old(activeList) && Pending() == old(Pending())
        && alloc.caps == old(alloc.caps) - {base} && alloc.bytes == old(alloc.bytes) - {base}
      ensures slot != NONE ==>
        && KeepsBut(old(alloc), alloc, old(defersPtr))
        && base in alloc.caps && alloc.caps[base] == old(alloc.caps[base]) && base != defersPtr
        && activeList == [slot] + old(activeList) && slot < |defers|
        && defers[slot].fn == FreeArena && defers[slot].user == base
        && Pending() == [Ran(FreeArena, base)] + old(Pending())
    {
      slot := ExtDefer(heap, FreeArena, base);
      if slot == NONE {
        DropBlock(heap, base);
      }
    }

    /** This arena's half of arena_free for a child: the child's teardown is
        cancelled without being run and, when this arena handed out the
        child's control block, that block is freed. */
    method Disown(heap: Heap, slot: nat, child: Ptr, owned: bool)
      requires heap.Valid() && Valid(heap.regionSize) && Live() && slot in activeList
      requires owned ==> child != Null && child in alloc.caps && child != defersPtr
      modifies this`alloc, this`defers, this`activeHead, this`freeHead, this`activeList, this`freeList,
        heap`trace, heap`live, heap`released
      ensures heap.Valid() && Valid(heap.regionSize) && heap.trace == old(heap.trace)
      ensures activeList == Without(old(activeList), slot) && |defers| == |old(defers)|
      ensures Pending() == Fired(old(defers), activeList)
      ensures owned ==> alloc.caps == old(alloc.caps) - {child} && alloc.bytes == old(alloc.bytes) - {child}
      ensures !owned ==> alloc == old(alloc)
      ensures !owned || old(alloc.caps[child]) <= LARGEST_SMALL_CAPACITY ==>
        heap.live == old(heap.live) && heap.released == old(heap.released)
      ensures owned && old(alloc.caps[child]) > LARGEST_SMALL_CAPACITY ==>
        child.At? && heap.live == old(heap.live) - {child.region} && heap.released == old(heap.released) + [child.region]
    {
      ExtCancel(heap, slot, false);
      DropOwned(heap, child, owned);
    }

    /** The afree of Disown: the child's block when this arena owns it. */
    method DropOwned(heap: Heap, child: Ptr, owned: bool)
      requires heap.Valid() && Valid(heap.regionSize)
      requires owned ==> child != Null && child in alloc.caps && child != defersPtr
      modifies this`alloc, heap`live, heap`released
      ensures heap.Valid() && Valid(heap.regionSize)
      ensures unchanged(this`defers, this`numDefers, this`activeList, this`freeList, this`deferHeaders)
      ensures owned ==> alloc.caps == old(alloc.caps) - {child} && alloc.bytes == old(alloc.bytes) - {child}
      ensures !owned ==> alloc == old(alloc)
      ensures !owned || old(alloc.caps[child]) <= LARGEST_SMALL_CAPACITY ==>
        heap.live == old(heap.live) && heap.released == old(heap.released)
      ensures owned && old(alloc.caps[child]) > LARGEST_SMALL_CAPACITY ==>
        child.At? && heap.live == old(heap.live) - {child.region} && heap.released == old(heap.released) + [child.region]
    {
      if owned {
        DropBlock(heap, child);
      }
    }
  }
}
