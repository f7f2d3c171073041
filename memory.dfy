/** What the allocator sees of the process: malloc and free of whole regions,
    the bytes behind pointers, and the observable effect of running an opaque
    callback. */
module Memory {

  newtype byte = x: int | 0 <= x < 256

  /** A C pointer: null, or a byte offset into a region that malloc returned. */
  datatype Ptr = Null | At(region: nat, offset: nat)

  /** `p + k` in bytes. */
  function Offset(p: Ptr, k: nat): (q: Ptr)
    requires p.At?
    ensures q.At? && q.region == p.region && q.offset == p.offset + k
  {
    At(p.region, p.offset + k)
  }

  /** `p - k` in bytes. */
  function Back(p: Ptr, k: nat): (q: Ptr)
    requires p.At? && k <= p.offset
    ensures q.At? && q.region == p.region && q.offset + k == p.offset
  {
    At(p.region, p.offset - k)
  }

  /** A callback function pointer. Callback bodies are not modelled: running
      one is an event. FreeArena stands for the library's own callback that
      tears down a child arena. */
  datatype Callback = NoCallback | UserCallback(id: nat) | FreeArena

  /** `fn(user)` was called. */
  datatype Event = Ran(fn: Callback, user: Ptr)

  /** Size of the capacity header in front of a block obtained without an arena. */
  const COMMON_HEADER: nat := 8

  function Zeros(n: nat): (z: seq<byte>)
    ensures |z| == n && forall i :: 0 <= i < n ==> z[i] == 0
  {
    seq(n, _ => 0)
  }

  /** `dst` with `src` written over it from byte `off` on (memcpy into a block). */
  function Splice(dst: seq<byte>, off: nat, src: seq<byte>): (r: seq<byte>)
    requires off + |src| <= |dst|
    ensures |r| == |dst|
    ensures r[..off] == dst[..off] && r[off..off + |src|] == src
    ensures r[off + |src|..] == dst[off + |src|..]
  {
    dst[..off] + src + dst[off + |src|..]
  }

  /** The source argument of arenaimp_copy: null, or readable bytes. */
  datatype Source = NoData | Data(b: seq<byte>)

  /** What arenaimp_copy writes for n bytes: a copy of the source, or zeros
      when the source is null. */
  function Fill(src: Source, n: nat): (r: seq<byte>)
    requires src.Data? ==> n <= |src.b|
    ensures |r| == n
  {
    if src.Data? then src.b[..n] else Zeros(n)
  }

  /** Every region of r1 is in r2 with the same size. */
  ghost predicate Within(r1: map<nat, nat>, r2: map<nat, nat>) {
    forall r :: r in r1 ==> r in r2 && r2[r] == r1[r]
  }

  /** Every block of (c0, b0) other than x is in (c1, b1) with the same
      capacity and the same contents. */
  ghost predicate KeptBut(c0: map<Ptr, nat>, b0: map<Ptr, seq<byte>>, c1: map<Ptr, nat>, b1: map<Ptr, seq<byte>>, x: Ptr) {
    forall q :: q in c0 && q != x ==>
      && q in c1 && c1[q] == c0[q]
      && (q in b0 ==> q in b1 && b1[q] == b0[q])
  }

  /** The outcome of an allocation of total bytes, between the headers and
      contents (c0, b0) before and (c1, b1) after: on failure nothing
      changed; otherwise p was not a block, now is one of exactly total
      bytes, and every other block is as it was. */
  ghost predicate Allocated(c0: map<Ptr, nat>, b0: map<Ptr, seq<byte>>, c1: map<Ptr, nat>, b1: map<Ptr, seq<byte>>,
                            p: Ptr, total: nat) {
    && (p == Null ==> c1 == c0 && b1 == b0)
    && (p != Null ==>
          && p !in c0 && p in c1 && c1[p] == total && p in b1 && |b1[p]| == total
          && KeptBut(c0, b0, c1, b1, Null))
  }

  /** The capacity arealloc_size asks for when a block of the given
      capacity must grow to hold total bytes: twice the capacity, or the
      request when that is larger. */
  function NewCapacity(capacity: nat, total: nat): (n: nat)
    ensures n >= total && n >= 2 * capacity
    ensures n == total || n == 2 * capacity
  {
    if total >= 2 * capacity then total else 2 * capacity
  }

  /** The outcome of arealloc_size(size, count, ptr): a null pointer
      becomes a fresh block (nothing for a count of 0); a request within the
      capacity keeps the block; otherwise a block of NewCapacity bytes
      starts with the old contents and the old block is gone, or, when that
      allocation fails, nothing changed. */
  ghost predicate Resized(c0: map<Ptr, nat>, b0: map<Ptr, seq<byte>>, c1: map<Ptr, nat>, b1: map<Ptr, seq<byte>>,
                          ptr: Ptr, size: nat, count: nat, r: Ptr) {
    && (ptr == Null ==> (count == 0 ==> r == Null) && Allocated(c0, b0, c1, b1, r, size * count))
    && (ptr != Null ==>
          && ptr in c0 && ptr in b0
          && (size * count <= c0[ptr] ==> r == ptr && c1 == c0 && b1 == b0)
          && (size * count > c0[ptr] && r == Null ==> c1 == c0 && b1 == b0)
          && (size * count > c0[ptr] && r != Null ==>
                && r !in c0 && ptr !in c1 && r in c1 && c1[r] == NewCapacity(c0[ptr], size * count)
                && r in b1 && |b1[r]| == c1[r] && b1[r][..c0[ptr]] == b0[ptr]
                && KeptBut(c0, b0, c1, b1, ptr)))
  }

  /** The process heap. Regions are handed out with fresh numbers, so a
      region number is never reused. */
  class Heap {
    /** The number the next successful malloc will use. */
    var nextRegion: nat
    /** Size in bytes of every region malloc ever returned. */
    var regionSize: map<nat, nat>
    /** Regions malloc returned and free has not yet been called on. */
    var live: set<nat>
    /** Every region passed to free, in order. */
    ghost var released: seq<nat>
    /** Capacity headers of blocks allocated with no arena (`alloc + 1`). */
    var caps: map<Ptr, nat>
    /** Contents of those blocks. */
    var bytes: map<Ptr, seq<byte>>
    /** Callbacks run so far. */
    ghost var trace: seq<Event>

    ghost predicate Valid()
      reads this`nextRegion, this`regionSize, this`caps, this`bytes
    {
      && (forall r :: r in regionSize ==> r < nextRegion)
      && (forall p :: p in caps ==>
            p.At? && p.offset == COMMON_HEADER && p.region < nextRegion
            && p in bytes && |bytes[p]| == caps[p])
    }

    /** The heap only ever grows its region numbering and never resizes a region. */
    twostate predicate Grew()
      reads this`nextRegion, this`regionSize
    {
      old(nextRegion) <= nextRegion && Within(old(regionSize), regionSize)
    }

    constructor ()
      ensures Valid()
      ensures nextRegion == 0 && regionSize == map[] && live == {} && released == []
      ensures caps == map[] && bytes == map[] && trace == []
    {
      nextRegion := 0;
      regionSize := map[];
      live := {};
      released := [];
      caps := map[];
      bytes := map[];
      trace := [];
    }

    /** malloc(n): a fresh region of n bytes, or null when the process is out
        of memory (which the model leaves open). */
    method Malloc(n: nat) returns (p: Ptr)
      requires Valid()
      modifies this`nextRegion, this`regionSize, this`live
      ensures Valid() && Grew()
      ensures p == Null ==> nextRegion == old(nextRegion) && regionSize == old(regionSize) && live == old(live)
      ensures p != Null ==>
        && p == At(old(nextRegion), 0)
        && nextRegion == old(nextRegion) + 1
        && regionSize == old(regionSize)[p.region := n]
        && live == old(live) + {p.region}
    {
      var ok: bool :| true;
      if !ok {
        return Null;
      }
      p := At(nextRegion, 0);
      regionSize := regionSize[nextRegion := n];
      live := live + {nextRegion};
      nextRegion := nextRegion + 1;
    }

    /** free() of the region that starts at region number r. */
    method Release(r: nat)
      modifies this`live, this`released
      ensures live == old(live) - {r} && released == old(released) + [r]
    {
      live := live - {r};
      released := released + [r];
    }

    /** `fn(user)`: the callback runs; its effect is recorded, not modelled. */
    method Run(fn: Callback, user: Ptr)
      modifies this`trace
      ensures trace == old(trace) + [Ran(fn, user)]
    {
      trace := trace + [Ran(fn, user)];
    }

    /** The no-arena path of aalloc_uninit_size: malloc header plus payload,
        stamp the capacity, return the address after the header. */
    method AllocBlock(total: nat) returns (p: Ptr)
      requires Valid()
      modifies this`nextRegion, this`regionSize, this`live, this`caps, this`bytes
      ensures Valid() && Grew()
      ensures p == Null ==> caps == old(caps) && bytes == old(bytes) && live == old(live)
      ensures p != Null ==>
        && p == At(old(nextRegion), COMMON_HEADER)
        && p !in old(caps)
        && caps == old(caps)[p := total]
        && p in bytes && |bytes[p]| == total && bytes == old(bytes)[p := bytes[p]]
        && p.region in regionSize && regionSize[p.region] == COMMON_HEADER + total
        && live == old(live) + {p.region}
    {
      var base := Malloc(COMMON_HEADER + total);
      if base == Null {
        return Null;
      }
      p := Offset(base, COMMON_HEADER);
      caps := caps[p := total];
      // Zeros witnesses that the uninitialised contents chosen below exist.
      assert |Zeros(total)| == total;
      var junk: seq<byte> :| |junk| == total;
      bytes := bytes[p := junk];
    }

    /** The no-arena path of afree: free the block, header included. */
    method FreeBlock(p: Ptr)
      requires Valid() && p in caps
      modifies this`live, this`released, this`caps, this`bytes
      ensures Valid()
      ensures caps == old(caps) - {p} && bytes == old(bytes) - {p}
      ensures live == old(live) - {p.region} && released == old(released) + [p.region]
    {
      Release(p.region);
      caps := caps - {p};
      bytes := bytes - {p};
    }

    /** A write of `data` into the no-arena block p at byte `off`. */
    method Store(p: Ptr, off: nat, data: seq<byte>)
      requires Valid() && p in caps && off + |data| <= |bytes[p]|
      modifies this`bytes
      ensures Valid()
      ensures bytes == old(bytes)[p := Splice(old(bytes[p]), off, data)]
    {
      bytes := bytes[p := Splice(bytes[p], off, data)];
    }

    /** arealloc_size with no arena: the same steps on blocks that sit
        behind a capacity header in a region of their own. */
    method Realloc(size: nat, count: nat, ptr: Ptr) returns (r: Ptr)
      requires Valid() && (ptr == Null || ptr in caps)
      modifies this`nextRegion, this`regionSize, this`live, this`released, this`caps, this`bytes
      ensures Valid() && Grew()
      ensures Resized(old(caps), old(bytes), caps, bytes, ptr, size, count, r)
    {
      if ptr == Null {
        if count == 0 {
          return Null;
        }
        r := AllocBlock(size * count);
        return;
      }
      var capacity := caps[ptr];
      var total := size * count;
      if total <= capacity {
        return ptr;
      }
      var newCap := capacity * 2;
      if total >= newCap {
        newCap := total;
      }
      r := AllocBlock(newCap);
      if r == Null {
        return;
      }
      Store(r, 0, bytes[ptr]);
      FreeBlock(ptr);
    }
  }
}
