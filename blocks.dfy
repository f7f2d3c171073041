/** Where the blocks of one arena live, stated on plain values: the bump
    cursor and its page, the small blocks carved so far, the per-class free
    lists, and the capacity headers of the live blocks. Each lemma is one
    step of aalloc_uninit_size or afree, shown to keep these facts. */
module Blocks {
  import opened SizeClasses
  import opened Memory
  import opened Sequences

  /** sizeof of the arena control block on a 64-bit target. */
  const ARENA_STRUCT_SIZE: nat := 224
  /** The first page is the control block plus the bytes after it. */
  const INIT_SIZE: nat := 512
  /** prev, next and capacity in front of a big block. */
  const BIG_HEADER: nat := 24
  /** No small block's user pointer is this close to the start of its region,
      so it never equals the user pointer BigUser of a big block. */
  const MIN_SMALL_OFFSET: nat := BIG_HEADER + SMALL_HEADER

  /** The user pointer of the big block malloc placed at region r. */
  function BigUser(r: nat): (p: Ptr)
    ensures p.At? && p.region == r && p.offset == BIG_HEADER
  {
    At(r, BIG_HEADER)
  }

  /** One past the last byte of the class-c block whose user pointer is p. */
  function End(p: Ptr, c: nat): nat
    requires p.At? && p.offset >= SMALL_HEADER && c < NUM_CLASSES
  {
    p.offset - SMALL_HEADER + Chunk(c)
  }

  /** The cursor is inside the page, the page inside the region malloc gave
      it, and the growth target between the first page size and the cap. */
  ghost predicate CursorOk(page: Ptr, pos: nat, size: nat, nextSize: nat, regions: map<nat, nat>) {
    && pos <= size
    && page.At? && page.region in regions
    && page.offset + size <= regions[page.region]
    && page.offset + pos >= BIG_HEADER
    && FIRST_PAGE_SIZE / 2 <= nextSize <= MAX_PAGE_SIZE
  }

  /** Every carved block lies inside its region, and on the current page it
      ends at or before the cursor, so the next carve cannot overlap it. */
  ghost predicate CarvedOk(small: map<Ptr, nat>, regions: map<nat, nat>, page: Ptr, pos: nat) {
    forall p :: p in small ==>
      && p.At? && p.offset >= MIN_SMALL_OFFSET && small[p] < NUM_CLASSES
      && p.region in regions && End(p, small[p]) <= regions[p.region]
      && (page.At? && p.region == page.region ==> End(p, small[p]) <= page.offset + pos)
  }

  /** Each free list holds distinct carved blocks of its own class that are
      not live. */
  ghost predicate FreeListsOk(nextFree: seq<seq<Ptr>>, small: map<Ptr, nat>, caps: map<Ptr, nat>) {
    && |nextFree| == NUM_CLASSES
    && (forall c, i :: 0 <= c < |nextFree| && 0 <= i < |nextFree[c]| ==>
          nextFree[c][i] in small && small[nextFree[c][i]] == c && nextFree[c][i] !in caps)
    && (forall c :: 0 <= c < |nextFree| ==> NoDup(nextFree[c]))
  }

  /** Every live block has contents of its capacity. A capacity afree treats
      as small belongs to a carved block of exactly the class afree pushes it
      onto; a big capacity belongs to a linked big block, and every linked
      big block is live with a big capacity. */
  ghost predicate HeadersOk(caps: map<Ptr, nat>, bytes: map<Ptr, seq<byte>>, small: map<Ptr, nat>,
                            big: seq<nat>) {
    && (forall p :: p in caps ==> p in bytes && |bytes[p]| == caps[p])
    && (forall p :: p in caps && caps[p] <= LARGEST_SMALL_CAPACITY ==>
          p in small && small[p] == FreeClassOf(caps[p]))
    && (forall p :: p in caps && caps[p] > LARGEST_SMALL_CAPACITY ==>
          p.At? && p == BigUser(p.region) && p.region in big)
    && (forall k :: 0 <= k < |big| ==>
          BigUser(big[k]) in caps && caps[BigUser(big[k])] > LARGEST_SMALL_CAPACITY)
  }

  /** arenaimp_init: the cursor sits just past the control block. */
  lemma InitOk(base: Ptr, regions: map<nat, nat>)
    requires base.At? && base.region in regions && base.offset + INIT_SIZE <= regions[base.region]
    ensures CursorOk(base, ARENA_STRUCT_SIZE, INIT_SIZE, FIRST_PAGE_SIZE / 2, regions)
    ensures CarvedOk(map[], regions, base, ARENA_STRUCT_SIZE)
    ensures FreeListsOk(seq(NUM_CLASSES, _ => []), map[], map[])
    ensures HeadersOk(map[], map[], map[], [])
  {
  }

  /** Nothing here depends on regions malloc hands out later. */
  lemma Mono(page: Ptr, pos: nat, size: nat, nextSize: nat, small: map<Ptr, nat>,
             r1: map<nat, nat>, r2: map<nat, nat>)
    requires CursorOk(page, pos, size, nextSize, r1) && CarvedOk(small, r1, page, pos)
    requires Within(r1, r2)
    ensures CursorOk(page, pos, size, nextSize, r2) && CarvedOk(small, r2, page, pos)
  {
  }

  /** A live capacity never sits at a big block's user pointer unless that
      block is linked, so the user pointer of a fresh region is not live. */
  lemma FreshBigNotLive(caps: map<Ptr, nat>, bytes: map<Ptr, seq<byte>>, small: map<Ptr, nat>,
                        big: seq<nat>, regions: map<nat, nat>, page: Ptr, pos: nat, r: nat)
    requires HeadersOk(caps, bytes, small, big) && CarvedOk(small, regions, page, pos)
    requires r !in big
    ensures BigUser(r) !in caps && BigUser(r) !in small
  {
  }

  /** The big path links a fresh region first and stamps its capacity. */
  lemma AddBigOk(caps: map<Ptr, nat>, bytes: map<Ptr, seq<byte>>, small: map<Ptr, nat>,
                 big: seq<nat>, nextFree: seq<seq<Ptr>>, regions: map<nat, nat>, page: Ptr, pos: nat,
                 r: nat, total: nat, junk: seq<byte>)
    requires HeadersOk(caps, bytes, small, big) && CarvedOk(small, regions, page, pos)
    requires FreeListsOk(nextFree, small, caps)
    requires r !in big && total > LARGEST_SMALL_CAPACITY && |junk| == total
    ensures HeadersOk(caps[BigUser(r) := total], bytes[BigUser(r) := junk], small, [r] + big)
    ensures FreeListsOk(nextFree, small, caps[BigUser(r) := total])
  {
    FreshBigNotLive(caps, bytes, small, big, regions, page, pos, r);
    var caps' := caps[BigUser(r) := total];
    var big' := [r] + big;
    forall k | 0 <= k < |big'|
      ensures BigUser(big'[k]) in caps' && caps'[BigUser(big'[k])] > LARGEST_SMALL_CAPACITY
    {
      if k > 0 {
        assert big'[k] == big[k - 1];
      }
    }
  }

  /** A fresh small block of the class the allocation path picks for total
      bytes, stamped with capacity total, keeps the headers consistent. */
  lemma NewSmallHeaders(caps: map<Ptr, nat>, bytes: map<Ptr, seq<byte>>, small: map<Ptr, nat>,
                        big: seq<nat>, p: Ptr, total: nat, junk: seq<byte>)
    requires HeadersOk(caps, bytes, small, big)
    requires total + SMALL_HEADER <= LARGEST_SIZE_CLASS && |junk| == total
    requires p !in caps && p.At? && p.offset != BIG_HEADER
    ensures HeadersOk(caps[p := total], bytes[p := junk], small[p := ClassOf(total + SMALL_HEADER)], big)
  {
    FreeRoutesToAllocClass(total);
    var caps' := caps[p := total];
    var small' := small[p := ClassOf(total + SMALL_HEADER)];
    forall q | q in caps' && caps'[q] <= LARGEST_SMALL_CAPACITY
      ensures q in small' && small'[q] == FreeClassOf(caps'[q])
    {
    }
    forall k | 0 <= k < |big|
      ensures BigUser(big[k]) in caps' && caps'[BigUser(big[k])] > LARGEST_SMALL_CAPACITY
    {
      assert BigUser(big[k]) in caps;
    }
  }

  /** A block that was never carved is on no free list. */
  lemma NewSmallLists(nextFree: seq<seq<Ptr>>, small: map<Ptr, nat>, caps: map<Ptr, nat>,
                      p: Ptr, c: nat, total: nat)
    requires FreeListsOk(nextFree, small, caps) && p !in small
    ensures FreeListsOk(nextFree, small[p := c], caps[p := total])
  {
    forall d, i | 0 <= d < |nextFree| && 0 <= i < |nextFree[d]|
      ensures nextFree[d][i] in small[p := c] && small[p := c][nextFree[d][i]] == d
      ensures nextFree[d][i] !in caps[p := total]
    {
      assert nextFree[d][i] in small;
    }
  }

  /** A bump carve: the block at the cursor, of class c, moves the cursor by
      exactly the class chunk and overlaps no carved block. */
  lemma CarveOk(caps: map<Ptr, nat>, bytes: map<Ptr, seq<byte>>, small: map<Ptr, nat>,
                big: seq<nat>, nextFree: seq<seq<Ptr>>, regions: map<nat, nat>,
                page: Ptr, pos: nat, size: nat, nextSize: nat, total: nat, junk: seq<byte>)
    requires CursorOk(page, pos, size, nextSize, regions) && CarvedOk(small, regions, page, pos)
    requires HeadersOk(caps, bytes, small, big) && FreeListsOk(nextFree, small, caps)
    requires total + SMALL_HEADER <= LARGEST_SIZE_CLASS && |junk| == total
    requires size - pos >= Chunk(ClassOf(total + SMALL_HEADER))
    ensures var c := ClassOf(total + SMALL_HEADER);
      var p := Offset(page, pos + SMALL_HEADER);
      && p !in small && p !in caps
      && (forall q :: q in small && q.region == p.region ==> End(q, small[q]) <= p.offset - SMALL_HEADER)
      && CursorOk(page, pos + Chunk(c), size, nextSize, regions)
      && CarvedOk(small[p := c], regions, page, pos + Chunk(c))
      && HeadersOk(caps[p := total], bytes[p := junk], small[p := c], big)
      && FreeListsOk(nextFree, small[p := c], caps[p := total])
  {
    var c := ClassOf(total + SMALL_HEADER);
    var p := Offset(page, pos + SMALL_HEADER);
    CarveCarved(small, regions, page, pos, size, nextSize, c);
    NewSmallHeaders(caps, bytes, small, big, p, total, junk);
    NewSmallLists(nextFree, small, caps, p, c, total);
  }

  /** The chunk at the cursor overlaps no carved block and ends inside the
      page. */
  lemma CarveCarved(small: map<Ptr, nat>, regions: map<nat, nat>, page: Ptr, pos: nat, size: nat,
                    nextSize: nat, c: nat)
    requires CursorOk(page, pos, size, nextSize, regions) && CarvedOk(small, regions, page, pos)
    requires c < NUM_CLASSES && size - pos >= Chunk(c)
    ensures var p := Offset(page, pos + SMALL_HEADER);
      && p !in small && p.At? && p.offset != BIG_HEADER
      && (forall q :: q in small && q.region == p.region ==> End(q, small[q]) <= p.offset - SMALL_HEADER)
      && CursorOk(page, pos + Chunk(c), size, nextSize, regions)
      && CarvedOk(small[p := c], regions, page, pos + Chunk(c))
  {
    var p := Offset(page, pos + SMALL_HEADER);
    ChunkBounds(c);
    assert p !in small by {
      if p in small {
        ChunkBounds(small[p]);
      }
    }
    var small' := small[p := c];
    forall q | q in small'
      ensures q.At? && q.offset >= MIN_SMALL_OFFSET && small'[q] < NUM_CLASSES
      ensures q.region in regions && End(q, small'[q]) <= regions[q.region]
      ensures q.region == page.region ==> End(q, small'[q]) <= page.offset + pos + Chunk(c)
    {
      if q != p {
        ChunkBounds(small[q]);
      }
    }
  }

  /** The first block of a fresh page sits at its start. When the page is
      adopted the cursor moves past the whole class chunk, so every carved
      block still ends before the cursor; otherwise the old page stays. */
  lemma FreshPageOk(caps: map<Ptr, nat>, bytes: map<Ptr, seq<byte>>, small: map<Ptr, nat>,
                    big: seq<nat>, nextFree: seq<seq<Ptr>>, regions: map<nat, nat>,
                    page: Ptr, pos: nat, size: nat, nextSize: nat,
                    newPage: Ptr, pageSize: nat, total: nat, junk: seq<byte>, adopt: bool)
    requires CursorOk(page, pos, size, nextSize, regions) && CarvedOk(small, regions, page, pos)
    requires HeadersOk(caps, bytes, small, big) && FreeListsOk(nextFree, small, caps)
    requires total + SMALL_HEADER <= LARGEST_SIZE_CLASS && |junk| == total
    requires FIRST_PAGE_SIZE <= pageSize && newPage.At? && newPage.offset == BIG_HEADER
    requires newPage in caps && caps[newPage] > LARGEST_SMALL_CAPACITY
    requires newPage.region in regions && regions[newPage.region] == BIG_HEADER + pageSize
    requires newPage.region != page.region
    requires forall q :: q in small ==> q.region != newPage.region
    ensures var c := ClassOf(total + SMALL_HEADER);
      var p := Offset(newPage, SMALL_HEADER);
      && p !in small && p !in caps
      && (adopt ==> (CursorOk(newPage, Chunk(c), pageSize, nextSize, regions)
                     && CarvedOk(small[p := c], regions, newPage, Chunk(c))))
      && (!adopt ==> CarvedOk(small[p := c], regions, page, pos))
      && HeadersOk(caps[p := total], bytes[p := junk], small[p := c], big)
      && FreeListsOk(nextFree, small[p := c], caps[p := total])
  {
    var c := ClassOf(total + SMALL_HEADER);
    var p := Offset(newPage, SMALL_HEADER);
    FreshPageCarved(small, regions, page, pos, size, nextSize, newPage, pageSize, c);
    NewSmallHeaders(caps, bytes, small, big, p, total, junk);
    NewSmallLists(nextFree, small, caps, p, c, total);
  }

  /** The first chunk of a fresh page fits in it, lies in no other page, and
      leaves every carved block where it was. */
  lemma FreshPageCarved(small: map<Ptr, nat>, regions: map<nat, nat>, page: Ptr, pos: nat, size: nat,
                        nextSize: nat, newPage: Ptr, pageSize: nat, c: nat)
    requires CursorOk(page, pos, size, nextSize, regions) && CarvedOk(small, regions, page, pos)
    requires c < NUM_CLASSES
    requires FIRST_PAGE_SIZE <= pageSize && newPage.At? && newPage.offset == BIG_HEADER
    requires newPage.region in regions && regions[newPage.region] == BIG_HEADER + pageSize
    requires newPage.region != page.region
    requires forall q :: q in small ==> q.region != newPage.region
    ensures var p := Offset(newPage, SMALL_HEADER);
      && CursorOk(newPage, Chunk(c), pageSize, nextSize, regions)
      && CarvedOk(small[p := c], regions, newPage, Chunk(c))
      && CarvedOk(small[p := c], regions, page, pos)
  {
    ChunkBounds(c);
    forall q | q in small
      ensures q.region != newPage.region
    {
    }
  }

  /** Reuse: the head of the class list becomes live again with the new
      capacity; it left the list and no other list holds it. */
  lemma PopOk(caps: map<Ptr, nat>, bytes: map<Ptr, seq<byte>>, small: map<Ptr, nat>,
              big: seq<nat>, nextFree: seq<seq<Ptr>>, total: nat, junk: seq<byte>)
    requires HeadersOk(caps, bytes, small, big) && FreeListsOk(nextFree, small, caps)
    requires total + SMALL_HEADER <= LARGEST_SIZE_CLASS && |junk| == total
    requires nextFree[ClassOf(total + SMALL_HEADER)] != []
    ensures var c := ClassOf(total + SMALL_HEADER);
      var p := nextFree[c][0];
      && p !in caps && p in small && small[p] == c
      && HeadersOk(caps[p := total], bytes[p := junk], small, big)
      && FreeListsOk(nextFree[c := nextFree[c][1..]], small, caps[p := total])
  {
    var c := ClassOf(total + SMALL_HEADER);
    var p := nextFree[c][0];
    assert p !in caps && p in small && small[p] == c;
    PopHeaders(caps, bytes, small, big, p, total, junk);
    PopLists(nextFree, small, caps, c, total);
  }

  /** The head of the class-ClassOf(total + SMALL_HEADER) list takes a
      capacity of total. */
  lemma PopHeaders(caps: map<Ptr, nat>, bytes: map<Ptr, seq<byte>>, small: map<Ptr, nat>,
                   big: seq<nat>, p: Ptr, total: nat, junk: seq<byte>)
    requires HeadersOk(caps, bytes, small, big)
    requires total + SMALL_HEADER <= LARGEST_SIZE_CLASS && |junk| == total
    requires p !in caps && p in small && small[p] == ClassOf(total + SMALL_HEADER)
    ensures HeadersOk(caps[p := total], bytes[p := junk], small, big)
  {
    FreeRoutesToAllocClass(total);
    var caps' := caps[p := total];
    forall q | q in caps' && caps'[q] <= LARGEST_SMALL_CAPACITY
      ensures q in small && small[q] == FreeClassOf(caps'[q])
    {
    }
    forall k | 0 <= k < |big|
      ensures BigUser(big[k]) in caps' && caps'[BigUser(big[k])] > LARGEST_SMALL_CAPACITY
    {
      assert BigUser(big[k]) in caps;
    }
  }

  /** Taking the head off list c keeps every list distinct, of its class and
      not live, once the head is live. */
  lemma PopLists(nextFree: seq<seq<Ptr>>, small: map<Ptr, nat>, caps: map<Ptr, nat>, c: nat, total: nat)
    requires FreeListsOk(nextFree, small, caps) && c < |nextFree| && nextFree[c] != []
    ensures FreeListsOk(nextFree[c := nextFree[c][1..]], small, caps[nextFree[c][0] := total])
  {
    var p := nextFree[c][0];
    var nf := nextFree[c := nextFree[c][1..]];
    NoDupCons(nextFree[c]);
    forall d, i | 0 <= d < |nf| && 0 <= i < |nf[d]|
      ensures nf[d][i] in small && small[nf[d][i]] == d && nf[d][i] != p
    {
      if d == c {
        assert nf[d][i] == nextFree[c][i + 1];
      }
    }
  }

  /** afree of a small block pushes it onto the list of its own class. */
  lemma FreeSmallOk(caps: map<Ptr, nat>, bytes: map<Ptr, seq<byte>>, small: map<Ptr, nat>,
                    big: seq<nat>, nextFree: seq<seq<Ptr>>, p: Ptr)
    requires HeadersOk(caps, bytes, small, big) && FreeListsOk(nextFree, small, caps)
    requires p in caps && caps[p] <= LARGEST_SMALL_CAPACITY
    ensures var c := FreeClassOf(caps[p]);
      && small[p] == c
      && HeadersOk(caps - {p}, bytes - {p}, small, big)
      && FreeListsOk(nextFree[c := [p] + nextFree[c]], small, caps - {p})
  {
    var c := FreeClassOf(caps[p]);
    var l := [p] + nextFree[c];
    assert NoDup(l) by {
      assert l[1..] == nextFree[c];
      forall i | 0 <= i < |nextFree[c]|
        ensures nextFree[c][i] != p
      {
      }
      NoDupCons(l);
    }
    var nf := nextFree[c := l];
    forall d, i | 0 <= d < |nf| && 0 <= i < |nf[d]|
      ensures nf[d][i] in small && small[nf[d][i]] == d && nf[d][i] !in caps - {p}
    {
      if d == c && i > 0 {
        assert nf[d][i] == nextFree[c][i - 1];
      }
    }
  }

  /** afree of a big block drops its capacity and its region from the list. */
  lemma FreeBigOk(caps: map<Ptr, nat>, bytes: map<Ptr, seq<byte>>, small: map<Ptr, nat>,
                  big: seq<nat>, nextFree: seq<seq<Ptr>>, i: nat)
    requires HeadersOk(caps, bytes, small, big) && FreeListsOk(nextFree, small, caps)
    requires NoDup(big) && i < |big|
    ensures HeadersOk(caps - {BigUser(big[i])}, bytes - {BigUser(big[i])}, small, big[..i] + big[i + 1..])
    ensures FreeListsOk(nextFree, small, caps - {BigUser(big[i])})
  {
    BigLinkedLive(caps, bytes, small, big, i);
    BigLiveLinked(caps, bytes, small, big, i);
  }

  lemma BigLiveLinked(caps: map<Ptr, nat>, bytes: map<Ptr, seq<byte>>, small: map<Ptr, nat>,
                      big: seq<nat>, i: nat)
    requires HeadersOk(caps, bytes, small, big) && NoDup(big) && i < |big|
    ensures forall q :: q in caps - {BigUser(big[i])} && caps[q] > LARGEST_SMALL_CAPACITY ==>
      q.region in big[..i] + big[i + 1..]
  {
    NoDupDistinct(big);
    var p := BigUser(big[i]);
    var big' := big[..i] + big[i + 1..];
    forall q | q in caps - {p} && caps[q] > LARGEST_SMALL_CAPACITY
      ensures q.region in big'
    {
      var k :| 0 <= k < |big| && big[k] == q.region;
      assert k != i;
      if k < i {
        assert big'[k] == big[k];
      } else {
        assert big'[k - 1] == big[k];
      }
    }
  }

  lemma BigLinkedLive(caps: map<Ptr, nat>, bytes: map<Ptr, seq<byte>>, small: map<Ptr, nat>,
                      big: seq<nat>, i: nat)
    requires HeadersOk(caps, bytes, small, big) && NoDup(big) && i < |big|
    ensures var big' := big[..i] + big[i + 1..];
      forall k :: 0 <= k < |big'| ==>
        BigUser(big'[k]) in caps - {BigUser(big[i])} && caps[BigUser(big'[k])] > LARGEST_SMALL_CAPACITY
  {
    NoDupDistinct(big);
    var p := BigUser(big[i]);
    var big' := big[..i] + big[i + 1..];
    forall k | 0 <= k < |big'|
      ensures BigUser(big'[k]) in caps - {p} && caps[BigUser(big'[k])] > LARGEST_SMALL_CAPACITY
    {
      if k < i {
        assert big'[k] == big[k];
      } else {
        assert big'[k] == big[k + 1];
      }
    }
  }
}
