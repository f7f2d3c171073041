/** Growable lists (alist_*): a block of `count` items of `size` bytes each,
    grown with arealloc_size. The list struct holds only the block pointer
    and the count; the item size comes with every call. A list's block
    belongs to the arena the caller passes (the process heap when that is
    null), so the calls that touch its bytes take that owner. */
module ArenaLists {
  import opened Memory
  import opened Arenas
  import opened ArenaApi

  /** The bytes n items of size bytes take: index * size in the source,
      written as repeated addition so that offsets stay linear. */
  function Span(n: nat, size: nat): nat {
    if n == 0 then 0 else Span(n - 1, size) + size
  }

  lemma {:induction false} SpanProduct(n: nat, size: nat)
    ensures Span(n, size) == n * size
  {
    if n > 0 {
      SpanProduct(n - 1, size);
    }
  }

  lemma {:induction false} SpanAdd(m: nat, n: nat, size: nat)
    ensures Span(m + n, size) == Span(m, size) + Span(n, size)
  {
    if n > 0 {
      SpanAdd(m, n - 1, size);
    }
  }

  lemma {:induction false} SpanMono(i: nat, j: nat, size: nat)
    requires i <= j
    ensures Span(i, size) <= Span(j, size)
  {
    SpanAdd(i, j - i, size);
  }

  /** The first n items of size bytes each stored at the front of block. */
  ghost function Items(block: seq<byte>, n: nat, size: nat): (r: seq<seq<byte>>)
    requires Span(n, size) <= |block|
    ensures |r| == n
  {
    if n == 0 then [] else Items(block, n - 1, size) + [block[Span(n - 1, size)..Span(n, size)]]
  }

  /** Item i is the i-th run of size bytes. */
  lemma {:induction false} ItemAt(block: seq<byte>, n: nat, size: nat, i: nat)
    requires Span(n, size) <= |block| && i < n
    ensures Span(i, size) + size <= Span(n, size)
    ensures Items(block, n, size)[i] == block[Span(i, size)..Span(i, size) + size]
  {
    if i < n - 1 {
      ItemAt(block, n - 1, size, i);
    }
  }

  /** The items depend only on the bytes they take. */
  lemma {:induction false} ItemsPrefix(b1: seq<byte>, b2: seq<byte>, n: nat, size: nat)
    requires Span(n, size) <= |b1| && Span(n, size) <= |b2| && b1[..Span(n, size)] == b2[..Span(n, size)]
    ensures Items(b1, n, size) == Items(b2, n, size)
  {
    forall i | 0 <= i < n
      ensures Items(b1, n, size)[i] == Items(b2, n, size)[i]
    {
      ItemAt(b1, n, size, i);
      ItemAt(b2, n, size, i);
      var lo, hi := Span(i, size), Span(i, size) + size;
      assert b1[lo..hi] == b1[..Span(n, size)][lo..hi];
      assert b2[lo..hi] == b2[..Span(n, size)][lo..hi];
    }
  }

  /** The first j of n items are the items of the first j. */
  lemma {:induction false} ItemsTake(block: seq<byte>, n: nat, size: nat, j: nat)
    requires Span(n, size) <= |block| && j <= n
    ensures Span(j, size) <= |block| && Items(block, n, size)[..j] == Items(block, j, size)
  {
    SpanMono(j, n, size);
    if j < n {
      ItemsTake(block, n - 1, size, j);
      assert Items(block, n, size)[..n - 1] == Items(block, n - 1, size);
    }
  }

  /** m items followed by n more are the first m + n items. */
  lemma {:induction false} ItemsAppend(block: seq<byte>, m: nat, n: nat, size: nat)
    requires Span(m + n, size) <= |block|
    ensures Span(m, size) + Span(n, size) <= |block|
    ensures Items(block, m + n, size) == Items(block, m, size) + Items(block[Span(m, size)..], n, size)
  {
    SpanAdd(m, n, size);
    if n > 0 {
      ItemsAppend(block, m, n - 1, size);
      SpanAdd(m, n - 1, size);
      var rest := block[Span(m, size)..];
      assert rest[Span(n - 1, size)..Span(n, size)] == block[Span(m + n - 1, size)..Span(m + n, size)];
    }
  }

  /** A block that starts with the bytes of k items and then src holds
      those k items followed by the items of src. */
  lemma {:induction false} Appended(block: seq<byte>, s0: seq<byte>, src: seq<byte>, k: nat, n: nat, size: nat)
    requires s0 + src <= block && |s0| == Span(k, size) && |src| == Span(n, size)
    ensures Span(k + n, size) <= |block|
    ensures Items(block, k + n, size) == Items(s0, k, size) + Items(src, n, size)
  {
    SpanAdd(k, n, size);
    ItemsAppend(block, k, n, size);
    assert block[..Span(k, size)] == s0;
    ItemsPrefix(block, s0, k, size);
    assert block[Span(k, size)..][..Span(n, size)] == src;
    ItemsPrefix(block[Span(k, size)..], src, n, size);
  }

  /** One item of bytes is a list of one item. */
  lemma {:induction false} One(d: seq<byte>, size: nat)
    requires |d| == size
    ensures Span(1, size) == size && Items(d, 1, size) == [d]
  {
    assert d[Span(0, size)..Span(1, size)] == d;
  }

  /** Bytes outside the written range keep their value. */
  lemma {:induction false} SpliceOutside(block: seq<byte>, off: nat, d: seq<byte>, lo: nat, hi: nat)
    requires off + |d| <= |block| && lo <= hi <= |block| && (hi <= off || off + |d| <= lo)
    ensures Splice(block, off, d)[lo..hi] == block[lo..hi]
  {
    var b2 := Splice(block, off, d);
    if hi <= off {
      assert b2[lo..hi] == b2[..off][lo..hi];
      assert block[lo..hi] == block[..off][lo..hi];
    } else {
      var j := off + |d|;
      assert b2[lo..hi] == b2[j..][lo - j..hi - j];
      assert block[lo..hi] == block[j..][lo - j..hi - j];
    }
  }

  /** Item i after item k was overwritten with d. */
  lemma {:induction false} ItemSpliced(block: seq<byte>, n: nat, size: nat, k: nat, d: seq<byte>, i: nat)
    requires Span(n, size) <= |block| && k < n && |d| == size && i < n
    ensures Span(k, size) + size <= |block|
    ensures Items(Splice(block, Span(k, size), d), n, size)[i] == if i == k then d else Items(block, n, size)[i]
  {
    ItemAt(block, n, size, k);
    var b2 := Splice(block, Span(k, size), d);
    ItemAt(b2, n, size, i);
    if i == k {
      assert b2[Span(k, size)..Span(k, size) + |d|] == d;
    } else {
      ItemAt(block, n, size, i);
      if i < k {
        SpanMono(i + 1, k, size);
        assert Span(i + 1, size) == Span(i, size) + size;
      } else {
        SpanMono(k + 1, i, size);
        assert Span(k + 1, size) == Span(k, size) + size;
      }
      SpliceOutside(block, Span(k, size), d, Span(i, size), Span(i, size) + size);
    }
  }

  /** Writing one item's worth of bytes over item k replaces item k. */
  lemma {:induction false} ItemsSplice(block: seq<byte>, n: nat, size: nat, k: nat, d: seq<byte>)
    requires Span(n, size) <= |block| && k < n && |d| == size
    ensures Span(k, size) + size <= |block|
    ensures Items(Splice(block, Span(k, size), d), n, size) == Items(block, n, size)[k := d]
  {
    ItemAt(block, n, size, k);
    var r1 := Items(Splice(block, Span(k, size), d), n, size);
    var r2 := Items(block, n, size)[k := d];
    forall i | 0 <= i < n
      ensures r1[i] == r2[i]
    {
      ItemSpliced(block, n, size, k, d, i);
    }
  }

  /** Taking item i out by moving the last item into its place leaves every
      other item: the items lose exactly one copy of item i. */
  lemma {:induction false} SwapRemove<T>(s: seq<T>, i: nat)
    requires i < |s|
    ensures multiset(s[i := s[|s| - 1]][..|s| - 1]) + multiset{s[i]} == multiset(s)
  {
    var last := |s| - 1;
    if i == last {
      assert s[i := s[last]][..last] + [s[last]] == s;
    } else {
      var t := s[i := s[last]][..last];
      assert t == s[..i] + [s[last]] + s[i + 1..last];
      assert s == s[..i] + [s[i]] + s[i + 1..last] + [s[last]];
    }
  }

  /** What Extend needs of a successful arealloc_size of the list's block
      data, between (c0, b0) and (c1, b1): the new block ptr has room for
      total items and for len bytes from off, starts with what data held
      before off, is not the defer table, and no other block changed. */
  ghost predicate Grown(c0: map<Ptr, nat>, b0: map<Ptr, seq<byte>>, c1: map<Ptr, nat>, b1: map<Ptr, seq<byte>>,
                        data: Ptr, ptr: Ptr, total: nat, off: nat, size: nat, len: nat, table: Ptr)
  {
    && ptr in c1 && ptr in b1 && |b1[ptr]| == c1[ptr] && off + len <= c1[ptr] && Span(total, size) <= c1[ptr]
    && (if data == Null then off == 0 else data in b0 && off <= |b0[data]| && b1[ptr][..off] == b0[data][..off])
    && ptr != table && KeptBut(c0, b0, c1, b1, data) && (ptr == data || ptr !in c0)
  }

  /** arealloc_size of the list's block data to total = index + n items,
      when it succeeds, gives Grown. */
  lemma {:induction false} GrownBlock(c0: map<Ptr, nat>, b0: map<Ptr, seq<byte>>, c1: map<Ptr, nat>, b1: map<Ptr, seq<byte>>,
                   data: Ptr, ptr: Ptr, index: nat, n: nat, total: nat, off: nat, size: nat, len: nat, table: Ptr)
    requires total == index + n && off == Span(index, size)
    requires Resized(c0, b0, c1, b1, data, size, total, ptr) && ptr != Null
    requires data == Null ==> index == 0
    requires data != Null ==> data in b0 && |b0[data]| == c0[data] && off <= c0[data] && data != table
    requires table == Null || table in c0
    requires len <= Span(n, size)
    ensures Grown(c0, b0, c1, b1, data, ptr, total, off, size, len, table)
  {
    SpanAdd(index, n, size);
    SpanProduct(total, size);
    if data != Null && size * total > c0[data] {
      assert b1[ptr][..off] == b1[ptr][..c0[data]][..off];
    }
  }

  /** A list with block data and count items of size bytes fits caps and
      bytes: a list with no block is empty, and a block is one other than
      table with room for the items. */
  ghost predicate Holds(caps: map<Ptr, nat>, bytes: map<Ptr, seq<byte>>, table: Ptr, data: Ptr, count: nat, size: nat) {
    && (data == Null ==> count == 0)
    && (data != Null ==>
          && data in caps && data in bytes && |bytes[data]| == caps[data]
          && Span(count, size) <= caps[data] && data != table)
  }

  /** The bytes of the items of such a list. */
  ghost function StoredIn(bytes: map<Ptr, seq<byte>>, data: Ptr, count: nat, size: nat): (s: seq<byte>)
    requires data == Null ==> count == 0
    requires data != Null ==> data in bytes && Span(count, size) <= |bytes[data]|
    ensures |s| == Span(count, size)
  {
    if data == Null then [] else bytes[data][..Span(count, size)]
  }

  /** The outcome of growing a list (data0, count0) by n items with src
      written at the first new one, from (c0, b0) to (c1, b1): the list
      (data1, count1) fits; on failure (dst null) nothing changed;
      otherwise count grew by n, the block starts with the old items and
      then src, and dst is the first new item. No other block changed. */
  ghost predicate Extended(c0: map<Ptr, nat>, b0: map<Ptr, seq<byte>>, c1: map<Ptr, nat>, b1: map<Ptr, seq<byte>>,
                           table: Ptr, data0: Ptr, count0: nat, data1: Ptr, count1: nat,
                           n: nat, size: nat, src: seq<byte>, dst: Ptr) {
    && Holds(c0, b0, table, data0, count0, size)
    && Holds(c1, b1, table, data1, count1, size)
    && (dst == Null ==> data1 == data0 && count1 == count0 && c1 == c0 && b1 == b0)
    && (dst != Null ==>
          && count1 == count0 + n && data1.At? && StoredIn(b0, data0, count0, size) + src <= b1[data1]
          && dst.At? && dst.region == data1.region && dst.offset == data1.offset + Span(count0, size))
    && KeptBut(c0, b0, c1, b1, data0)
  }

  /** After a successful arealloc_size (Grown) and the write of src at
      the first new item, the list is Extended. */
  lemma {:induction false} ExtendedOk(c0: map<Ptr, nat>, b0: map<Ptr, seq<byte>>, c1: map<Ptr, nat>, b1: map<Ptr, seq<byte>>,
                                      b2: map<Ptr, seq<byte>>, table: Ptr, data0: Ptr, count0: nat, ptr: Ptr, off: nat,
                                      total: nat, n: nat, size: nat, src: seq<byte>, dst: Ptr)
    requires Holds(c0, b0, table, data0, count0, size) && off == Span(count0, size) && total == count0 + n
    requires Grown(c0, b0, c1, b1, data0, ptr, total, off, size, |src|, table) && ptr.At?
    requires b2 == b1[ptr := Splice(b1[ptr], off, src)] && dst == At(ptr.region, ptr.offset + off)
    ensures Extended(c0, b0, c1, b2, table, data0, count0, ptr, total, n, size, src, dst)
  {
    KeptWrite(c0, b0, c1, b1, data0, ptr, b2[ptr]);
    assert b1[ptr][..off] == StoredIn(b0, data0, count0, size);
  }

  /** A block that starts with s0 (k items) and then src (m items) holds,
      among its first total items, those k items followed by src's. */
  lemma {:induction false} ExtendedItems(block: seq<byte>, s0: seq<byte>, src: seq<byte>, k: nat, m: nat, total: nat,
                                         size: nat)
    requires s0 + src <= block && |s0| == Span(k, size) && |src| == Span(m, size)
    requires k + m <= total && Span(total, size) <= |block|
    ensures Items(block[..Span(total, size)], total, size)[..k + m] == Items(s0, k, size) + Items(src, m, size)
  {
    Appended(block, s0, src, k, m, size);
    var t := block[..Span(total, size)];
    assert t[..Span(total, size)] == block[..Span(total, size)];
    ItemsPrefix(block, t, total, size);
    ItemsTake(block, total, size, k + m);
  }

  /** The first count - 1 items after alist_remove_size's intended move:
      item index becomes the last item and the last slot is dropped. */
  lemma {:induction false} MovedLast(block: seq<byte>, count: nat, size: nat, index: nat)
    requires Span(count, size) <= |block| && index < count
    ensures Span(count - 1, size) + size <= |block| && Span(index, size) + size <= |block|
    ensures var last := count - 1;
      var d := block[Span(last, size)..Span(last, size) + size];
      var old_items := Items(block[..Span(count, size)], count, size);
      Items(Splice(block, Span(index, size), d)[..Span(last, size)], last, size) == old_items[index := old_items[last]][..last]
  {
    var last := count - 1;
    var S := Span(count, size);
    ItemAt(block, count, size, last);
    ItemAt(block, count, size, index);
    var d := block[Span(last, size)..Span(last, size) + size];
    var b2 := Splice(block, Span(index, size), d);
    var t := block[..S];
    assert t[..S] == block[..S];
    ItemsPrefix(block, t, count, size);
    ItemsSplice(block, count, size, index, d);
    ItemsTake(b2, count, size, last);
    var u := b2[..Span(last, size)];
    assert u[..Span(last, size)] == b2[..Span(last, size)];
    ItemsPrefix(b2, u, last, size);
  }

  /** The first count - 1 items after alist_remove_size as written: item
      index is copied over the last slot, which the list no longer holds. */
  lemma {:induction false} CopiedToLast(block: seq<byte>, count: nat, size: nat, index: nat)
    requires Span(count, size) <= |block| && index < count
    ensures Span(count - 1, size) + size <= |block| && Span(index, size) + size <= |block|
    ensures var last := count - 1;
      var d := block[Span(index, size)..Span(index, size) + size];
      Items(Splice(block, Span(last, size), d)[..Span(last, size)], last, size) == Items(block[..Span(count, size)], count, size)[..last]
  {
    var last := count - 1;
    var S := Span(count, size);
    ItemAt(block, count, size, last);
    ItemAt(block, count, size, index);
    var d := block[Span(index, size)..Span(index, size) + size];
    var b2 := Splice(block, Span(last, size), d);
    SpliceOutside(block, Span(last, size), d, 0, Span(last, size));
    var t := block[..S];
    assert t[..S] == block[..S];
    ItemsPrefix(block, t, count, size);
    ItemsTake(block, count, size, last);
    var u := b2[..Span(last, size)];
    var v := block[..Span(last, size)];
    assert u[..Span(last, size)] == v && block[..Span(last, size)] == v[..Span(last, size)];
    ItemsPrefix(v, u, last, size);
    ItemsPrefix(block, v, last, size);
  }

  /** The items of a list of count items in block data of b0 after the
      intended move of alist_remove_size (giving b1) and the drop of the
      last slot. */
  lemma {:induction false} Moved(b0: map<Ptr, seq<byte>>, b1: map<Ptr, seq<byte>>, data: Ptr, count: nat, last: nat,
                                 size: nat, index: nat)
    requires data != Null && data in b0 && Span(count, size) <= |b0[data]| && index < count && last == count - 1
    requires Span(last, size) + size <= |b0[data]| && Span(index, size) + size <= |b0[data]|
    requires var block := b0[data];
      b1 == b0[data := Splice(block, Span(index, size), block[Span(last, size)..Span(last, size) + size])]
    ensures data in b1 && Span(last, size) <= |b1[data]|
    ensures var before := Items(StoredIn(b0, data, count, size), count, size);
      Items(StoredIn(b1, data, last, size), last, size) == before[index := before[last]][..last]
  {
    MovedLast(b0[data], count, size, index);
  }

  /** The same for the copy alist_remove_size makes as written. */
  lemma {:induction false} Copied(b0: map<Ptr, seq<byte>>, b1: map<Ptr, seq<byte>>, data: Ptr, count: nat, last: nat,
                                 size: nat, index: nat)
    requires data != Null && data in b0 && Span(count, size) <= |b0[data]| && index < count && last == count - 1
    requires Span(last, size) + size <= |b0[data]| && Span(index, size) + size <= |b0[data]|
    requires var block := b0[data];
      b1 == b0[data := Splice(block, Span(last, size), block[Span(index, size)..Span(index, size) + size])]
    ensures data in b1 && Span(last, size) <= |b1[data]|
    ensures Items(StoredIn(b1, data, last, size), last, size)
         == Items(StoredIn(b0, data, count, size), count, size)[..last]
  {
    CopiedToLast(b0[data], count, size, index);
  }

  /** A write to block p keeps every other block. */
  lemma KeptPut(c: map<Ptr, nat>, b: map<Ptr, seq<byte>>, p: Ptr, d: seq<byte>)
    ensures KeptBut(c, b, c, b[p := d], p)
  {
  }

  /** Dropping items from the end of a list keeps the first j. */
  lemma {:induction false} TakeStored(bytes: map<Ptr, seq<byte>>, data: Ptr, count: nat, j: nat, size: nat)
    requires data == Null ==> count == 0
    requires data != Null ==> data in bytes && Span(count, size) <= |bytes[data]|
    requires j <= count
    ensures Span(j, size) <= Span(count, size)
    ensures Items(StoredIn(bytes, data, j, size), j, size) == Items(StoredIn(bytes, data, count, size), count, size)[..j]
  {
    SpanMono(j, count, size);
    var s := StoredIn(bytes, data, count, size);
    ItemsTake(s, count, size, j);
    var t := StoredIn(bytes, data, j, size);
    if data != Null {
      assert s[..Span(j, size)] == t[..Span(j, size)];
    }
    ItemsPrefix(s, t, j, size);
  }

  /** After a list grew by n items with src (m items) written first, its
      first count0 + m items are the old ones followed by src's. */
  lemma {:induction false} ExtendedPrefix(c0: map<Ptr, nat>, b0: map<Ptr, seq<byte>>, c1: map<Ptr, nat>,
                                          b1: map<Ptr, seq<byte>>, table: Ptr, data0: Ptr, count0: nat, data1: Ptr,
                                          count1: nat, n: nat, m: nat, size: nat, src: seq<byte>, dst: Ptr)
    requires Extended(c0, b0, c1, b1, table, data0, count0, data1, count1, n, size, src, dst)
    requires dst != Null && |src| == Span(m, size) && m <= n
    ensures data1 in b1 && Span(count1, size) <= |b1[data1]| && count0 + m <= count1
    ensures Items(StoredIn(b1, data1, count1, size), count1, size)[..count0 + m]
         == Items(StoredIn(b0, data0, count0, size), count0, size) + Items(src, m, size)
  {
    ExtendedItems(b1[data1], StoredIn(b0, data0, count0, size), src, count0, m, count1, size);
  }

  /** The block no list may use: the arena's own defer table. */
  ghost function Table(a: Arena?): Ptr
    reads a
  {
    if a == null then Null else a.defersPtr
  }

  /** The list struct: `data` and `count`. */
  class AList {
    var data: Ptr
    var count: nat

    /** A zero-initialised list. */
    constructor ()
      ensures data == Null && count == 0
    {
      data := Null;
      count := 0;
    }

    /** The owner a (the process heap when null) is ready and holds the list. */
    ghost predicate Valid(heap: Heap, a: Arena?, size: nat)
      reads this, heap, a
    {
      Ready(heap, a) && Holds(Caps(heap, a), Bytes(heap, a), Table(a), data, count, size)
    }

    /** The items, in order, when the block's bytes are bytes. */
    ghost function Contents(bytes: map<Ptr, seq<byte>>, size: nat): (r: seq<seq<byte>>)
      reads this`data, this`count
      requires data == Null ==> count == 0
      requires data != Null ==> data in bytes && Span(count, size) <= |bytes[data]|
      ensures |r| == count
    {
      Items(StoredIn(bytes, data, count, size), count, size)
    }

    /** Extend with no arena: the block is a malloc'd region. */
    method ExtendHeap(heap: Heap, size: nat, n: nat, src: seq<byte>) returns (dst: Ptr)
      requires heap.Valid() && Holds(heap.caps, heap.bytes, Null, data, count, size) && |src| <= Span(n, size)
      modifies this`data, this`count, heap`nextRegion, heap`regionSize, heap`live, heap`released,
        heap`caps, heap`bytes
      ensures heap.Valid()
      ensures Extended(old(heap.caps), old(heap.bytes), heap.caps, heap.bytes, Null, old(data), old(count), data, count, n, size, src, dst)
    {
      ghost var c0, b0 := heap.caps, heap.bytes;
      var index := count;
      var total, off := index + n, Span(index, size);
      var ptr := heap.Realloc(size, total, data);
      if ptr == Null {
        return Null;
      }
      ghost var c1, b1 := heap.caps, heap.bytes;
      GrownBlock(c0, b0, c1, b1, data, ptr, index, n, total, off, size, |src|, Null);
      data, count := ptr, total;
      dst := At(ptr.region, ptr.offset + off);
      heap.Store(ptr, off, src);
      ExtendedOk(c0, b0, c1, b1, heap.bytes, Null, old(data), index, ptr, off, total, n, size, src, dst);
    }

    /** The arealloc_size half of ExtendArena, on the list (data, count):
        on success the new block ptr has room for n more items and for
        len bytes at the first new item, at off. */
    static method GrowArena(heap: Heap, a: Arena, data: Ptr, count: nat, size: nat, n: nat, len: nat)
      returns (ptr: Ptr, off: nat, total: nat)
      requires heap.Valid() && a.Valid(heap.regionSize) && a.Live()
      requires Holds(a.alloc.caps, a.alloc.bytes, a.defersPtr, data, count, size) && len <= Span(n, size)
      modifies a`alloc, heap`nextRegion, heap`regionSize, heap`live, heap`released
      ensures heap.Valid() && a.Valid(heap.regionSize) && a.Live() && a.defersPtr == old(a.defersPtr)
      ensures ptr == Null ==> a.alloc.caps == old(a.alloc.caps) && a.alloc.bytes == old(a.alloc.bytes)
      ensures ptr != Null ==> ptr.At? && off == Span(count, size) && total == count + n
      ensures ptr != Null ==>
        Grown(old(a.alloc.caps), old(a.alloc.bytes), a.alloc.caps, a.alloc.bytes, data, ptr, total, off, size, len, a.defersPtr)
    {
      ghost var c0, b0 := a.alloc.caps, a.alloc.bytes;
      assert a.defersPtr == Null || a.defersPtr in c0;
      total := count + n;
      off := Span(count, size);
      ptr := a.Resize(heap, size, total, data);
      if ptr == Null {
        return;
      }
      GrownBlock(c0, b0, a.alloc.caps, a.alloc.bytes, data, ptr, count, n, total, off, size, len, a.defersPtr);
    }

    /** Extend with an arena: the block belongs to it. */
    method ExtendArena(heap: Heap, a: Arena, size: nat, n: nat, src: seq<byte>) returns (dst: Ptr)
      requires heap.Valid() && a.Valid(heap.regionSize) && a.Live()
      requires Holds(a.alloc.caps, a.alloc.bytes, a.defersPtr, data, count, size) && |src| <= Span(n, size)
      modifies this`data, this`count, a`alloc, heap`nextRegion, heap`regionSize, heap`live, heap`released
      ensures Ready(heap, a)
      ensures Extended(old(Caps(heap, a)), old(Bytes(heap, a)), Caps(heap, a), Bytes(heap, a), Table(a),
                       old(data), old(count), data, count, n, size, src, dst)
    {
      ghost var c0, b0 := a.alloc.caps, a.alloc.bytes;
      var data0, count0 := data, count;
      var ptr, off, total := GrowArena(heap, a, data0, count0, size, n, |src|);
      if ptr == Null {
        return Null;
      }
      data, count := ptr, total;
      dst := WriteNew(heap, a, ptr, off, total, src, c0, b0, data0, count0, n, size);
    }

    /** The write half of ExtendArena: src goes at the first new item of
        the grown block ptr. */
    static method WriteNew(heap: Heap, a: Arena, ptr: Ptr, off: nat, total: nat, src: seq<byte>, ghost c0: map<Ptr, nat>,
                           ghost b0: map<Ptr, seq<byte>>, ghost data0: Ptr, ghost count0: nat, ghost n: nat,
                           ghost size: nat) returns (dst: Ptr)
      requires heap.Valid() && a.Valid(heap.regionSize) && a.Live() && ptr.At?
      requires Holds(c0, b0, a.defersPtr, data0, count0, size) && off == Span(count0, size) && total == count0 + n
      requires Grown(c0, b0, a.alloc.caps, a.alloc.bytes, data0, ptr, total, off, size, |src|, a.defersPtr)
      modifies a`alloc
      ensures heap.Valid() && a.Valid(heap.regionSize) && a.Live()
      ensures Extended(c0, b0, a.alloc.caps, a.alloc.bytes, a.defersPtr, data0, count0, ptr, total, n, size, src, dst)
    {
      ghost var c1, b1 := a.alloc.caps, a.alloc.bytes;
      dst := At(ptr.region, ptr.offset + off);
      a.Overwrite(heap, ptr, off, src);
      ExtendedOk(c0, b0, c1, b1, a.alloc.bytes, a.defersPtr, data0, count0, ptr, off, total, n, size, src, dst);
    }

    /** The step alist_push_size and alist_push_n_size share: the block grows
        to hold n more items, src is written at the first new item, and count
        grows by n. On failure nothing changes. */
    method Extend(heap: Heap, a: Arena?, size: nat, n: nat, src: seq<byte>) returns (dst: Ptr)
      requires Valid(heap, a, size) && |src| <= Span(n, size)
      modifies this`data, this`count, heap`nextRegion, heap`regionSize, heap`live, heap`released,
        heap`caps, heap`bytes, a
      ensures Ready(heap, a)
      ensures Extended(old(Caps(heap, a)), old(Bytes(heap, a)), Caps(heap, a), Bytes(heap, a), Table(a),
                       old(data), old(count), data, count, n, size, src, dst)
    {
      if a == null {
        dst := ExtendHeap(heap, size, n, src);
      } else {
        dst := ExtendArena(heap, a, size, n, src);
      }
    }

    /** alist_push_size: the item (zeros when it is null) is appended and
        the returned pointer is its slot. On failure nothing changes. */
    method Push(heap: Heap, a: Arena?, size: nat, item: Source) returns (dst: Ptr)
      requires Valid(heap, a, size) && (item.Data? ==> size <= |item.b|)
      modifies this`data, this`count, heap`nextRegion, heap`regionSize, heap`live, heap`released,
        heap`caps, heap`bytes, a
      ensures Valid(heap, a, size)
      ensures dst == Null ==> data == old(data) && count == old(count)
      ensures dst == Null ==> Caps(heap, a) == old(Caps(heap, a)) && Bytes(heap, a) == old(Bytes(heap, a))
      ensures dst != Null ==> Contents(Bytes(heap, a), size) == old(Contents(Bytes(heap, a), size)) + [Fill(item, size)]
      ensures dst != Null ==> data.At? && dst == Offset(data, Span(old(count), size))
      ensures KeptBut(old(Caps(heap, a)), old(Bytes(heap, a)), Caps(heap, a), Bytes(heap, a), old(data))
    {
      ghost var c0, b0, d0, k := Caps(heap, a), Bytes(heap, a), data, count;
      var src := Fill(item, size);
      One(src, size);
      dst := Extend(heap, a, size, 1, src);
      if dst != Null {
        ExtendedPrefix(c0, b0, Caps(heap, a), Bytes(heap, a), Table(a), d0, k, data, count, 1, 1, size, src, dst);
      }
    }

    /** alist_push_n_size as intended: n items are appended, copied from
        the n * size bytes at item (zeros when it is null). On failure
        nothing changes. */
    method PushN(heap: Heap, a: Arena?, size: nat, n: nat, item: Source) returns (dst: Ptr)
      requires Valid(heap, a, size) && (item.Data? ==> Span(n, size) <= |item.b|)
      modifies this`data, this`count, heap`nextRegion, heap`regionSize, heap`live, heap`released,
        heap`caps, heap`bytes, a
      ensures Valid(heap, a, size)
      ensures dst == Null ==> data == old(data) && count == old(count)
      ensures dst == Null ==> Caps(heap, a) == old(Caps(heap, a)) && Bytes(heap, a) == old(Bytes(heap, a))
      ensures dst != Null ==> Contents(Bytes(heap, a), size) == old(Contents(Bytes(heap, a), size)) + Items(Fill(item, Span(n, size)), n, size)
      ensures dst != Null ==> data.At? && dst == Offset(data, Span(old(count), size))
      ensures KeptBut(old(Caps(heap, a)), old(Bytes(heap, a)), Caps(heap, a), Bytes(heap, a), old(data))
    {
      ghost var c0, b0, d0, k := Caps(heap, a), Bytes(heap, a), data, count;
      var src := Fill(item, Span(n, size));
      dst := Extend(heap, a, size, n, src);
      if dst != Null {
        ExtendedPrefix(c0, b0, Caps(heap, a), Bytes(heap, a), Table(a), d0, k, data, count, n, n, size, src, dst);
      }
    }

    /** alist_push_n_size as written: the count grows by n but only the
        first new item is written; the other n - 1 slots keep whatever
        arealloc_size left there. */
    method PushNAsWritten(heap: Heap, a: Arena?, size: nat, n: nat, item: Source) returns (dst: Ptr)
      requires Valid(heap, a, size) && (item.Data? ==> size <= |item.b|) && n >= 1
      modifies this`data, this`count, heap`nextRegion, heap`regionSize, heap`live, heap`released,
        heap`caps, heap`bytes, a
      ensures Valid(heap, a, size)
      ensures dst == Null ==> data == old(data) && count == old(count)
      ensures dst == Null ==> Caps(heap, a) == old(Caps(heap, a)) && Bytes(heap, a) == old(Bytes(heap, a))
      ensures dst != Null ==> count == old(count) + n
      ensures dst != Null ==> Contents(Bytes(heap, a), size)[..old(count) + 1] == old(Contents(Bytes(heap, a), size)) + [Fill(item, size)]
      ensures dst != Null ==> data.At? && dst == Offset(data, Span(old(count), size))
      ensures KeptBut(old(Caps(heap, a)), old(Bytes(heap, a)), Caps(heap, a), Bytes(heap, a), old(data))
    {
      ghost var c0, b0, d0, k := Caps(heap, a), Bytes(heap, a), data, count;
      var src := Fill(item, size);
      One(src, size);
      SpanMono(1, n, size);
      dst := Extend(heap, a, size, n, src);
      if dst != Null {
        ExtendedPrefix(c0, b0, Caps(heap, a), Bytes(heap, a), Table(a), d0, k, data, count, n, 1, size, src, dst);
      }
    }

    /** alist_pop_size: an empty list gives null; otherwise the last item
        leaves the list and the returned pointer is its slot, whose bytes
        are that item. No byte changes. */
    method Pop(size: nat, ghost caps: map<Ptr, nat>, ghost bytes: map<Ptr, seq<byte>>, ghost table: Ptr)
      returns (p: Ptr)
      requires Holds(caps, bytes, table, data, count, size)
      modifies this`count
      ensures Holds(caps, bytes, table, data, count, size)
      ensures old(count) == 0 ==> p == Null && count == 0
      ensures old(count) > 0 ==> count == old(count) - 1 && data.At? && p == Offset(data, Span(count, size))
      ensures Contents(bytes, size) == old(Contents(bytes, size))[..count]
      ensures old(count) > 0 ==>
        Span(count, size) + size <= |bytes[data]|
        && bytes[data][Span(count, size)..Span(count, size) + size] == old(Contents(bytes, size))[count]
    {
      if count == 0 {
        return Null;
      }
      var index := count - 1;
      ItemAt(StoredIn(bytes, data, count, size), count, size, index);
      TakeStored(bytes, data, count, index, size);
      count := index;
      p := Offset(data, Span(index, size));
    }

    /** alist_pop_n_size: fewer than n items gives null and no change;
        otherwise the last n items leave the list and the returned pointer
        is the first of their slots. No byte changes. */
    method PopN(size: nat, n: nat, ghost caps: map<Ptr, nat>, ghost bytes: map<Ptr, seq<byte>>, ghost table: Ptr)
      returns (p: Ptr)
      requires Holds(caps, bytes, table, data, count, size)
      modifies this`count
      ensures Holds(caps, bytes, table, data, count, size)
      ensures old(count) < n ==> p == Null && count == old(count)
      ensures old(count) >= n ==> count == old(count) - n && (data == Null ==> p == Null)
      ensures old(count) >= n && data != Null ==> p == Offset(data, Span(count, size))
      ensures Contents(bytes, size) == old(Contents(bytes, size))[..count]
    {
      if count < n {
        return Null;
      }
      var index := count - n;
      TakeStored(bytes, data, count, index, size);
      count := index;
      if data == Null {
        return Null;
      }
      p := Offset(data, Span(index, size));
    }

    /** The memcpy of alist_remove_size: item from of the block data is
        copied over item to (no write when they are the same slot). */
    static method CopyItem(heap: Heap, a: Arena?, data: Ptr, size: nat, from: nat, to: nat, ghost n: nat)
      requires Ready(heap, a) && data in Caps(heap, a) && data in Bytes(heap, a)
      requires |Bytes(heap, a)[data]| == Caps(heap, a)[data] && Span(n, size) <= Caps(heap, a)[data]
      requires from < n && to < n
      modifies heap`bytes, a
      ensures Ready(heap, a) && Table(a) == old(Table(a)) && Caps(heap, a) == old(Caps(heap, a))
      ensures Span(from, size) + size <= |old(Bytes(heap, a))[data]| && Span(to, size) + size <= |old(Bytes(heap, a))[data]|
      ensures var block := old(Bytes(heap, a))[data];
        Bytes(heap, a) == old(Bytes(heap, a))[data := Splice(block, Span(to, size), block[Span(from, size)..Span(from, size) + size])]
    {
      ghost var block := Bytes(heap, a)[data];
      ItemAt(block, n, size, from);
      ItemAt(block, n, size, to);
      var item := Bytes(heap, a)[data][Span(from, size)..Span(from, size) + size];
      if from != to {
        Put(heap, a, data, Span(to, size), item);
      } else {
        assert Splice(block, Span(to, size), item) == block;
        assert Bytes(heap, a)[data := block] == Bytes(heap, a);
      }
    }

    /** alist_remove_size as intended: the last item moves into slot index
        and the list shrinks by one, so exactly one copy of item index
        leaves it. An index past the end gives false and no change. */
    method Remove(heap: Heap, a: Arena?, size: nat, index: nat) returns (ok: bool)
      requires Valid(heap, a, size)
      modifies this`count, heap`bytes, a
      ensures Valid(heap, a, size) && Caps(heap, a) == old(Caps(heap, a))
      ensures ok == (index < old(count))
      ensures !ok ==> count == old(count) && Bytes(heap, a) == old(Bytes(heap, a))
      ensures ok ==> count == old(count) - 1
      ensures ok ==>
        Contents(Bytes(heap, a), size) == old(Contents(Bytes(heap, a), size))[index := old(Contents(Bytes(heap, a), size))[count]][..count]
      ensures KeptBut(old(Caps(heap, a)), old(Bytes(heap, a)), Caps(heap, a), Bytes(heap, a), data)
    {
      if index >= count {
        return false;
      }
      var n, last := count, count - 1;
      count := last;
      ghost var b0 := Bytes(heap, a);
      CopyItem(heap, a, data, size, last, index, n);
      Moved(b0, Bytes(heap, a), data, n, last, size, index);
      KeptPut(old(Caps(heap, a)), b0, data, Bytes(heap, a)[data]);
      ok := true;
    }

    /** alist_remove_size as written: item index is copied over the last
        slot, so the list loses its last item instead of item index. */
    method RemoveAsWritten(heap: Heap, a: Arena?, size: nat, index: nat) returns (ok: bool)
      requires Valid(heap, a, size)
      modifies this`count, heap`bytes, a
      ensures Valid(heap, a, size) && Caps(heap, a) == old(Caps(heap, a))
      ensures ok == (index < old(count))
      ensures !ok ==> count == old(count) && Bytes(heap, a) == old(Bytes(heap, a))
      ensures ok ==> count == old(count) - 1
      ensures ok ==> Contents(Bytes(heap, a), size) == old(Contents(Bytes(heap, a), size))[..count]
      ensures KeptBut(old(Caps(heap, a)), old(Bytes(heap, a)), Caps(heap, a), Bytes(heap, a), data)
    {
      if index >= count {
        return false;
      }
      var n, last := count, count - 1;
      count := last;
      ghost var b0 := Bytes(heap, a);
      CopyItem(heap, a, data, size, index, last, n);
      Copied(b0, Bytes(heap, a), data, n, last, size, index);
      KeptPut(old(Caps(heap, a)), b0, data, Bytes(heap, a)[data]);
      ok := true;
    }
  }
}
