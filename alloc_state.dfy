/** The allocation state of one arena as a single value, and each step of
    aalloc_uninit_size and afree as a function on it. Each step lemma shows
    that the step keeps every fact of Blocks and BigList; the methods of
    Arenas.Arena perform the same steps on the fields of the control block. */
module AllocState {
  import opened SizeClasses
  import opened Memory
  import opened Sequences
  import opened BigList
  import opened Blocks

  /** The fields of arenaimp_t that allocation touches, with the ghost views
      of the carved blocks, the live blocks' contents and the big list. */
  datatype Alloc = Alloc(page: Ptr, pos: nat, size: nat, nextSize: nat,
                         nextFree: seq<seq<Ptr>>, small: map<Ptr, nat>,
                         caps: map<Ptr, nat>, bytes: map<Ptr, seq<byte>>,
                         big: seq<nat>, next: map<BigNode, BigNode>, prev: map<BigNode, BigNode>)

  ghost predicate AllocOk(s: Alloc, regions: map<nat, nat>) {
    && CursorOk(s.page, s.pos, s.size, s.nextSize, regions)
    && CarvedOk(s.small, regions, s.page, s.pos)
    && FreeListsOk(s.nextFree, s.small, s.caps)
    && HeadersOk(s.caps, s.bytes, s.small, s.big)
    && ListOk(s.big, s.next, s.prev, regions)
  }

  /** arenaimp_init: the first page is the control block, the cursor is
      just past it, no block exists and the big list is empty. */
  function Initial(base: Ptr): Alloc {
    Alloc(base, ARENA_STRUCT_SIZE, INIT_SIZE, FIRST_PAGE_SIZE / 2, seq(NUM_CLASSES, _ => []),
          map[], map[], map[], [], map[BigHead := BigTail, BigTail := BigHead], map[])
  }

  lemma InitialOk(base: Ptr, regions: map<nat, nat>)
    requires base.At? && base.region in regions && base.offset + INIT_SIZE <= regions[base.region]
    ensures AllocOk(Initial(base), regions)
  {
    InitOk(base, regions);
    BigList.EmptyOk(regions);
  }

  lemma AllocOkMono(s: Alloc, r1: map<nat, nat>, r2: map<nat, nat>)
    requires AllocOk(s, r1) && Within(r1, r2)
    ensures AllocOk(s, r2)
  {
    Mono(s.page, s.pos, s.size, s.nextSize, s.small, r1, r2);
    ListOkMono(s.big, s.next, s.prev, r1, r2);
  }

  /** A region numbered above every region the state knows of is not in
      use by it. */
  lemma FreshRegion(s: Alloc, regions: map<nat, nat>, r: nat)
    requires AllocOk(s, regions) && forall q :: q in regions ==> q < r
    ensures r !in s.big && r != s.page.region
    ensures forall q :: q in s.small ==> q.region != r
    ensures BigUser(r) !in s.caps
  {
    assert forall k :: 0 <= k < |s.big| ==> s.big[k] in regions;
    FreshBigNotLive(s.caps, s.bytes, s.small, s.big, regions, s.page, s.pos, r);
  }

  /** The big path: link region r after the head and stamp its capacity. */
  function PushBig(s: Alloc, r: nat, total: nat, junk: seq<byte>): Alloc
    requires BigHead in s.next
  {
    var node := BigBlock(r);
    var first := s.next[BigHead];
    s.(big := [r] + s.big,
       next := s.next[node := first][BigHead := node],
       prev := s.prev[node := BigHead][first := node],
       caps := s.caps[BigUser(r) := total],
       bytes := s.bytes[BigUser(r) := junk])
  }

  lemma PushBigOk(s: Alloc, r0: map<nat, nat>, r1: map<nat, nat>, r: nat, total: nat, junk: seq<byte>)
    requires AllocOk(s, r0) && Within(r0, r1) && r in r1 && forall q :: q in r0 ==> q < r
    requires total > LARGEST_SMALL_CAPACITY && |junk| == total
    ensures BigUser(r) !in s.caps
    ensures AllocOk(PushBig(s, r, total, junk), r1)
  {
    AllocOkMono(s, r0, r1);
    FreshRegion(s, r0, r);
    PushOk(s.big, s.next, s.prev, r1, r);
    AddBigOk(s.caps, s.bytes, s.small, s.big, s.nextFree, r1, s.page, s.pos, r, total, junk);
  }

  /** The size class serving a request of total bytes. */
  function ClassFor(total: nat): (c: nat)
    requires total + SMALL_HEADER <= LARGEST_SIZE_CLASS
    ensures c < NUM_CLASSES && total + SMALL_HEADER <= Chunk(c)
  {
    ClassOf(total + SMALL_HEADER)
  }

  /** The block a bump carve hands out: just past its header at the cursor. */
  function CarvedAt(s: Alloc): Ptr
    requires s.page.At?
  {
    Offset(s.page, s.pos + SMALL_HEADER)
  }

  /** A bump carve of a class-ClassFor(total) chunk at the cursor. */
  function Carve(s: Alloc, total: nat, junk: seq<byte>): Alloc
    requires s.page.At? && total + SMALL_HEADER <= LARGEST_SIZE_CLASS
  {
    var c := ClassFor(total);
    var p := CarvedAt(s);
    s.(pos := s.pos + Chunk(c), small := s.small[p := c], caps := s.caps[p := total],
       bytes := s.bytes[p := junk])
  }

  /** A carve hands out a block that is not live and not carved before,
      and that starts where every earlier block of its region has ended. */
  lemma CarveFresh(s: Alloc, regions: map<nat, nat>, total: nat)
    requires AllocOk(s, regions) && total + SMALL_HEADER <= LARGEST_SIZE_CLASS
    requires s.size - s.pos >= Chunk(ClassFor(total))
    ensures CarvedAt(s) !in s.caps && CarvedAt(s) !in s.small
    ensures forall q :: q in s.small && q.region == CarvedAt(s).region ==>
      End(q, s.small[q]) <= CarvedAt(s).offset - SMALL_HEADER
  {
    CarveOk(s.caps, s.bytes, s.small, s.big, s.nextFree, regions, s.page, s.pos, s.size, s.nextSize,
            total, Zeros(total));
  }

  /** A carve keeps every invariant. */
  lemma CarveStepOk(s: Alloc, regions: map<nat, nat>, total: nat, junk: seq<byte>)
    requires AllocOk(s, regions) && total + SMALL_HEADER <= LARGEST_SIZE_CLASS && |junk| == total
    requires s.size - s.pos >= Chunk(ClassFor(total))
    ensures AllocOk(Carve(s, total, junk), regions)
  {
    var c := ClassFor(total);
    var p := CarvedAt(s);
    assert c == ClassOf(total + SMALL_HEADER) && p == Offset(s.page, s.pos + SMALL_HEADER);
    CarveOk(s.caps, s.bytes, s.small, s.big, s.nextFree, regions, s.page, s.pos, s.size, s.nextSize,
            total, junk);
    var t := Carve(s, total, junk);
    assert t.page == s.page && t.pos == s.pos + Chunk(c) && t.size == s.size && t.nextSize == s.nextSize;
    assert t.small == s.small[p := c] && t.caps == s.caps[p := total] && t.bytes == s.bytes[p := junk];
    assert t.nextFree == s.nextFree && t.big == s.big && t.next == s.next && t.prev == s.prev;
  }

  /** Reuse of the head of the class free list. */
  function Pop(s: Alloc, total: nat, junk: seq<byte>): Alloc
    requires total + SMALL_HEADER <= LARGEST_SIZE_CLASS && |s.nextFree| == NUM_CLASSES
    requires s.nextFree[ClassFor(total)] != []
  {
    var c := ClassFor(total);
    var p := s.nextFree[c][0];
    s.(nextFree := s.nextFree[c := s.nextFree[c][1..]], caps := s.caps[p := total],
       bytes := s.bytes[p := junk])
  }

  lemma PopStepOk(s: Alloc, regions: map<nat, nat>, total: nat, junk: seq<byte>)
    requires AllocOk(s, regions) && total + SMALL_HEADER <= LARGEST_SIZE_CLASS && |junk| == total
    requires s.nextFree[ClassFor(total)] != []
    ensures s.nextFree[ClassFor(total)][0] !in s.caps
    ensures AllocOk(Pop(s, total, junk), regions)
  {
    PopOk(s.caps, s.bytes, s.small, s.big, s.nextFree, total, junk);
  }

  /** next_size after a page is requested: doubled, capped at MAX_PAGE_SIZE. */
  function Grown(nextSize: nat): (n: nat)
    ensures n <= MAX_PAGE_SIZE
    ensures n == MAX_PAGE_SIZE || n == 2 * nextSize
  {
    if 2 * nextSize > MAX_PAGE_SIZE then MAX_PAGE_SIZE else 2 * nextSize
  }

  /** The size of the page requested: next_size, or the request if larger. */
  function PageSize(nextSize: nat, total: nat): (n: nat)
    ensures n >= nextSize && n >= total + SMALL_HEADER
  {
    if nextSize < total + SMALL_HEADER then total + SMALL_HEADER else nextSize
  }

  lemma GrownOk(s: Alloc, regions: map<nat, nat>)
    requires AllocOk(s, regions)
    ensures AllocOk(s.(nextSize := Grown(s.nextSize)), regions)
    ensures FIRST_PAGE_SIZE <= Grown(s.nextSize)
  {
  }

  /** The first block of a fresh page sits at its start; when the page is
      adopted, the cursor moves past that block's whole class chunk. */
  function FirstOnPage(s: Alloc, newPage: Ptr, pageSize: nat, total: nat, junk: seq<byte>,
                       adopt: bool): Alloc
    requires newPage.At? && total + SMALL_HEADER <= LARGEST_SIZE_CLASS
  {
    var c := ClassFor(total);
    var p := Offset(newPage, SMALL_HEADER);
    var s1 := s.(small := s.small[p := c], caps := s.caps[p := total], bytes := s.bytes[p := junk]);
    if adopt then s1.(page := newPage, pos := Chunk(c), size := pageSize) else s1
  }

  lemma FirstOnPageOk(s: Alloc, regions: map<nat, nat>, newPage: Ptr, pageSize: nat, total: nat,
                      junk: seq<byte>, adopt: bool)
    requires AllocOk(s, regions) && total + SMALL_HEADER <= LARGEST_SIZE_CLASS && |junk| == total
    requires FIRST_PAGE_SIZE <= pageSize && newPage.At? && newPage.offset == BIG_HEADER
    requires newPage in s.caps && s.caps[newPage] > LARGEST_SMALL_CAPACITY
    requires newPage.region in regions && regions[newPage.region] == BIG_HEADER + pageSize
    requires newPage.region != s.page.region
    requires forall q :: q in s.small ==> q.region != newPage.region
    ensures Offset(newPage, SMALL_HEADER) !in s.caps && Offset(newPage, SMALL_HEADER) !in s.small
    ensures AllocOk(FirstOnPage(s, newPage, pageSize, total, junk, adopt), regions)
  {
    FreshPageOk(s.caps, s.bytes, s.small, s.big, s.nextFree, regions, s.page, s.pos, s.size,
                s.nextSize, newPage, pageSize, total, junk, adopt);
  }

  /** Whether a fresh page of ps bytes, after its first block of total
      bytes, leaves more room than the current page. */
  function Adopts(s: Alloc, ps: nat, total: nat): bool {
    ps - (total + SMALL_HEADER) > s.size - s.pos
  }

  /** The fresh-page path: next_size grows, a page of PageSize bytes is
      linked as a big block at region r, the block goes at its start, and
      the page is adopted when it leaves more room. */
  function FreshPage(s: Alloc, r: nat, total: nat, pageJunk: seq<byte>, junk: seq<byte>): Alloc
    requires BigHead in s.next && total + SMALL_HEADER <= LARGEST_SIZE_CLASS
  {
    var ns := Grown(s.nextSize);
    var ps := PageSize(ns, total);
    FirstOnPage(PushBig(s.(nextSize := ns), r, ps, pageJunk), BigUser(r), ps, total, junk,
                Adopts(s, ps, total))
  }

  lemma FreshPageStepOk(s: Alloc, r0: map<nat, nat>, r1: map<nat, nat>, r: nat, total: nat,
                        pageJunk: seq<byte>, junk: seq<byte>)
    requires AllocOk(s, r0) && Within(r0, r1) && r in r1 && forall q :: q in r0 ==> q < r
    requires total + SMALL_HEADER <= LARGEST_SIZE_CLASS && |junk| == total
    requires |pageJunk| == PageSize(Grown(s.nextSize), total)
    requires r1[r] == BIG_HEADER + PageSize(Grown(s.nextSize), total)
    ensures BigUser(r) !in s.caps
    ensures Offset(BigUser(r), SMALL_HEADER) !in s.caps && Offset(BigUser(r), SMALL_HEADER) !in s.small
    ensures AllocOk(FreshPage(s, r, total, pageJunk, junk), r1)
  {
    var g := s.(nextSize := Grown(s.nextSize));
    var ps := PageSize(g.nextSize, total);
    GrownOk(s, r0);
    FreshRegion(g, r0, r);
    PushBigOk(g, r0, r1, r, ps, pageJunk);
    FirstOnPageOk(PushBig(g, r, ps, pageJunk), r1, BigUser(r), ps, total, junk, Adopts(s, ps, total));
  }

  /** Every live block has a real address, at least one small header in. */
  lemma LiveAt(s: Alloc, regions: map<nat, nat>, p: Ptr)
    requires AllocOk(s, regions) && p in s.caps
    ensures p.At? && p.offset >= SMALL_HEADER
  {
    if s.caps[p] <= LARGEST_SMALL_CAPACITY {
      assert p in s.small;
    }
  }

  /** Every block live in s is live in t, with the same capacity and contents. */
  ghost predicate Keeps(s: Alloc, t: Alloc) {
    forall q :: q in s.caps ==>
      && q in t.caps && t.caps[q] == s.caps[q]
      && (q in s.bytes ==> q in t.bytes && t.bytes[q] == s.bytes[q])
  }

  /** A step that only adds the block p keeps every other block. */
  lemma AddKeeps(s: Alloc, t: Alloc, p: Ptr)
    requires p !in s.caps && p in t.caps && p in t.bytes
    requires t.caps == s.caps[p := t.caps[p]] && t.bytes == s.bytes[p := t.bytes[p]]
    ensures Keeps(s, t)
  {
  }

  lemma KeepsTrans(s: Alloc, t: Alloc, u: Alloc)
    requires Keeps(s, t) && Keeps(t, u)
    ensures Keeps(s, u)
  {
  }

  /** Every block live in s other than x is live in t, unchanged. */
  ghost predicate KeepsBut(s: Alloc, t: Alloc, x: Ptr) {
    forall q :: q in s.caps && q != x ==>
      && q in t.caps && t.caps[q] == s.caps[q]
      && (q in s.bytes ==> q in t.bytes && t.bytes[q] == s.bytes[q])
  }

  /** A write to a block that s does not have keeps every block of s. */
  lemma WriteKeeps(s: Alloc, t: Alloc, p: Ptr, data: seq<byte>)
    requires Keeps(s, t) && p !in s.caps
    ensures Keeps(s, Write(t, p, data))
  {
  }

  /** The same, for a state u that differs from t only in the contents of p. */
  lemma RewriteKeeps(s: Alloc, t: Alloc, u: Alloc, p: Ptr)
    requires Keeps(s, t) && p !in s.caps && p in u.bytes
    requires u.caps == t.caps && u.bytes == t.bytes[p := u.bytes[p]]
    ensures Keeps(s, u)
  {
  }

  /** Dropping the block x from a state that keeps s keeps every block of s but x. */
  lemma DropKeeps(s: Alloc, t: Alloc, u: Alloc, x: Ptr)
    requires Keeps(s, t) && u.caps == t.caps - {x} && u.bytes == t.bytes - {x}
    ensures KeepsBut(s, u, x)
  {
  }

  lemma KeepsAll(s: Alloc, t: Alloc, x: Ptr)
    requires Keeps(s, t)
    ensures KeepsBut(s, t, x)
  {
  }

  lemma KeepsThenBut(a0: Alloc, a1: Alloc, a2: Alloc, x: Ptr)
    requires Keeps(a0, a1) && KeepsBut(a1, a2, x)
    ensures KeepsBut(a0, a2, x)
  {
  }

  /** Adding the block p and dropping it again keeps every block. */
  lemma AddDropKeeps(a0: Alloc, a1: Alloc, a2: Alloc, p: Ptr, x: Ptr)
    requires Keeps(a0, a1) && p !in a0.caps
    requires a2.caps == a1.caps - {p} && a2.bytes == a1.bytes - {p}
    ensures Keeps(a0, a2) && KeepsBut(a0, a2, x)
  {
  }

  /** A block other than x that s has is unchanged in t. */
  lemma KeepsAt(s: Alloc, t: Alloc, x: Ptr, p: Ptr)
    requires KeepsBut(s, t, x) && p in s.caps && p in s.bytes && p != x
    ensures p in t.caps && t.caps[p] == s.caps[p] && p in t.bytes && t.bytes[p] == s.bytes[p]
  {
  }

  /** t hands out p as a small block of total bytes that s did not have,
      carved for the class of total, and keeps every block of s. */
  ghost predicate GivesSmall(s: Alloc, t: Alloc, p: Ptr, total: nat)
    requires total + SMALL_HEADER <= LARGEST_SIZE_CLASS
  {
    && p !in s.caps && p in t.caps && t.caps[p] == total
    && p in t.bytes && |t.bytes[p]| == total
    && p in t.small && t.small[p] == ClassFor(total) && Keeps(s, t)
  }

  lemma PopGives(s: Alloc, total: nat, junk: seq<byte>)
    requires FreeListsOk(s.nextFree, s.small, s.caps) && total + SMALL_HEADER <= LARGEST_SIZE_CLASS
    requires |junk| == total && s.nextFree[ClassFor(total)] != []
    ensures GivesSmall(s, Pop(s, total, junk), s.nextFree[ClassFor(total)][0], total)
  {
    var c := ClassFor(total);
    assert s.nextFree[c][0] in s.small;
  }

  lemma CarveGives(s: Alloc, total: nat, junk: seq<byte>)
    requires s.page.At? && total + SMALL_HEADER <= LARGEST_SIZE_CLASS && |junk| == total
    requires CarvedAt(s) !in s.caps
    ensures GivesSmall(s, Carve(s, total, junk), CarvedAt(s), total)
  {
  }

  lemma FreshPageGives(s: Alloc, r: nat, total: nat, pageJunk: seq<byte>, junk: seq<byte>)
    requires BigHead in s.next && total + SMALL_HEADER <= LARGEST_SIZE_CLASS && |junk| == total
    requires BigUser(r) !in s.caps && Offset(BigUser(r), SMALL_HEADER) !in s.caps
    ensures GivesSmall(s, FreshPage(s, r, total, pageJunk, junk), Offset(BigUser(r), SMALL_HEADER), total)
  {
  }

  /** Which step the small path of aalloc_uninit_size takes from s to t,
      handing out p: the head of the class list when there is one; else a
      carve when the page has room for the whole chunk; else a fresh page
      at region r, or, when that page cannot be had, only next_size grown.
      The bytes of a new block are whatever t holds for it. */
  ghost predicate SmallStep(s: Alloc, t: Alloc, p: Ptr, total: nat, r: nat)
    requires total + SMALL_HEADER <= LARGEST_SIZE_CLASS && |s.nextFree| == NUM_CLASSES
    requires s.page.At? && BigHead in s.next
  {
    var c := ClassFor(total);
    if s.nextFree[c] != [] then
      p == s.nextFree[c][0] && p in t.bytes && t == Pop(s, total, t.bytes[p])
    else if s.size - s.pos >= Chunk(c) then
      p == CarvedAt(s) && p in t.bytes && t == Carve(s, total, t.bytes[p])
    else if p == Null then
      t == s.(nextSize := Grown(s.nextSize))
    else
      && p == Offset(BigUser(r), SMALL_HEADER) && BigUser(r) in t.bytes && p in t.bytes
      && t == FreshPage(s, r, total, t.bytes[BigUser(r)], t.bytes[p])
  }

  /** Each outcome of the small path is a SmallStep: reuse of the list head, */
  lemma PopIsStep(s: Alloc, t: Alloc, p: Ptr, total: nat, r: nat)
    requires total + SMALL_HEADER <= LARGEST_SIZE_CLASS && |s.nextFree| == NUM_CLASSES
    requires s.page.At? && BigHead in s.next && s.nextFree[ClassFor(total)] != []
    requires p == s.nextFree[ClassFor(total)][0] && p in t.bytes && t == Pop(s, total, t.bytes[p])
    ensures SmallStep(s, t, p, total, r)
  {
  }

  /** a carve at the cursor, */
  lemma CarveIsStep(s: Alloc, t: Alloc, p: Ptr, total: nat, r: nat)
    requires total + SMALL_HEADER <= LARGEST_SIZE_CLASS && |s.nextFree| == NUM_CLASSES
    requires s.page.At? && BigHead in s.next && s.nextFree[ClassFor(total)] == []
    requires s.size - s.pos >= Chunk(ClassFor(total))
    requires p == CarvedAt(s) && p in t.bytes && t == Carve(s, total, t.bytes[p])
    ensures SmallStep(s, t, p, total, r)
  {
  }

  /** next_size grown when no page can be had, */
  lemma GrowIsStep(s: Alloc, t: Alloc, total: nat, r: nat)
    requires total + SMALL_HEADER <= LARGEST_SIZE_CLASS && |s.nextFree| == NUM_CLASSES
    requires s.page.At? && BigHead in s.next && s.nextFree[ClassFor(total)] == []
    requires s.size - s.pos < Chunk(ClassFor(total))
    requires t == s.(nextSize := Grown(s.nextSize))
    ensures SmallStep(s, t, Null, total, r)
  {
  }

  /** and the first block of a fresh page at region r. */
  lemma FreshPageIsStep(s: Alloc, t: Alloc, p: Ptr, total: nat, r: nat, pageJunk: seq<byte>, junk: seq<byte>)
    requires total + SMALL_HEADER <= LARGEST_SIZE_CLASS && |s.nextFree| == NUM_CLASSES
    requires s.page.At? && BigHead in s.next && s.nextFree[ClassFor(total)] == []
    requires s.size - s.pos < Chunk(ClassFor(total))
    requires p == Offset(BigUser(r), SMALL_HEADER) && t == FreshPage(s, r, total, pageJunk, junk)
    ensures SmallStep(s, t, p, total, r)
  {
  }

  /** The step aalloc_uninit_size takes on an arena: the small path for a
      request whose block with its header fits the largest class, else the
      big path at region r, which on failure changes nothing. */
  ghost predicate UninitStep(s: Alloc, t: Alloc, p: Ptr, total: nat, r: nat) {
    && |s.nextFree| == NUM_CLASSES && s.page.At? && BigHead in s.next
    && if total + SMALL_HEADER <= LARGEST_SIZE_CLASS then SmallStep(s, t, p, total, r)
    else if p == Null then t == s
    else p == BigUser(r) && p in t.bytes && t == PushBig(s, r, total, t.bytes[p])
  }

  /** afree of a small block: onto the free list of its class. */
  function PushFree(s: Alloc, p: Ptr): Alloc
    requires p in s.caps && s.caps[p] <= LARGEST_SMALL_CAPACITY && |s.nextFree| == NUM_CLASSES
  {
    var c := FreeClassOf(s.caps[p]);
    s.(nextFree := s.nextFree[c := [p] + s.nextFree[c]], caps := s.caps - {p}, bytes := s.bytes - {p})
  }

  lemma PushFreeOk(s: Alloc, regions: map<nat, nat>, p: Ptr)
    requires AllocOk(s, regions) && p in s.caps && s.caps[p] <= LARGEST_SMALL_CAPACITY
    ensures s.small[p] == FreeClassOf(s.caps[p])
    ensures AllocOk(PushFree(s, p), regions)
  {
    FreeSmallOk(s.caps, s.bytes, s.small, s.big, s.nextFree, p);
  }

  /** A small block freed and then a request of the same size: the request
      is served by that very block, and the free lists and capacities are
      again as they were before the free. */
  lemma {:induction false} FreeThenPop(s: Alloc, regions: map<nat, nat>, p: Ptr, junk: seq<byte>)
    requires AllocOk(s, regions) && p in s.caps && s.caps[p] + SMALL_HEADER <= LARGEST_SIZE_CLASS
    ensures var t := PushFree(s, p);
      var c := ClassFor(s.caps[p]);
      && t.nextFree[c] != [] && t.nextFree[c][0] == p
      && Pop(t, s.caps[p], junk).nextFree == s.nextFree
      && Pop(t, s.caps[p], junk).caps == s.caps
  {
    var total := s.caps[p];
    FreeRoutesToAllocClass(total);
    var c := ClassFor(total);
    var t := PushFree(s, p);
    assert t.nextFree[c] == [p] + s.nextFree[c];
    assert t.nextFree[c][1..] == s.nextFree[c];
    assert t.nextFree[c := t.nextFree[c][1..]] == s.nextFree;
    assert t.caps[p := total] == s.caps;
  }

  /** afree of a big block: splice position i out of the list and drop its
      capacity. */
  function UnlinkAt(s: Alloc, i: nat): Alloc
    requires i < |s.big|
  {
    var pv, nx := NodeAt(s.big, i - 1), NodeAt(s.big, i + 1);
    s.(big := s.big[..i] + s.big[i + 1..], next := s.next[pv := nx], prev := s.prev[nx := pv],
       caps := s.caps - {BigUser(s.big[i])}, bytes := s.bytes - {BigUser(s.big[i])})
  }

  lemma UnlinkAtOk(s: Alloc, regions: map<nat, nat>, i: nat)
    requires AllocOk(s, regions) && i < |s.big|
    ensures s.prev[BigBlock(s.big[i])] == NodeAt(s.big, i - 1)
    ensures s.next[BigBlock(s.big[i])] == NodeAt(s.big, i + 1)
    ensures AllocOk(UnlinkAt(s, i), regions)
  {
    UnlinkOk(s.big, s.next, s.prev, regions, i);
    FreeBigOk(s.caps, s.bytes, s.small, s.big, s.nextFree, i);
  }

  /** afree of a big block as arena.c performs it: read the neighbours from
      the block's header and point them past it. */
  function UnlinkBig(s: Alloc, p: Ptr): Alloc
    requires p.At? && BigBlock(p.region) in s.prev && BigBlock(p.region) in s.next
  {
    var node := BigBlock(p.region);
    var pv, nx := s.prev[node], s.next[node];
    s.(big := Without(s.big, p.region), next := s.next[pv := nx], prev := s.prev[nx := pv],
       caps := s.caps - {p}, bytes := s.bytes - {p})
  }

  /** afree's effect on the arena state for the live block p: a small
      capacity pushes p on its free list, a big one unlinks its region. */
  ghost predicate FreedAs(s: Alloc, t: Alloc, p: Ptr) {
    && p in s.caps && |s.nextFree| == NUM_CLASSES
    && if s.caps[p] <= LARGEST_SMALL_CAPACITY then t == PushFree(s, p)
       else p.At? && BigBlock(p.region) in s.prev && BigBlock(p.region) in s.next && t == UnlinkBig(s, p)
  }

  /** For a live big block, the check afree makes before unlinking
      (prev->next == alloc && next->prev == alloc) holds, the unlink removes
      exactly its region from the list, and every invariant is kept. */
  lemma UnlinkBigOk(s: Alloc, regions: map<nat, nat>, p: Ptr)
    requires AllocOk(s, regions) && p in s.caps && s.caps[p] > LARGEST_SMALL_CAPACITY
    ensures p.At? && p == BigUser(p.region) && p.region in s.big
    ensures var n := BigBlock(p.region);
      && n in s.prev && n in s.next
      && s.prev[n] in s.next && s.next[s.prev[n]] == n
      && s.next[n] in s.prev && s.prev[s.next[n]] == n
    ensures AllocOk(UnlinkBig(s, p), regions)
  {
    var i := IndexOf(s.big, p.region);
    UnlinkAtOk(s, regions, i);
    Neighbours(s.big, s.next, s.prev, i);
    WithoutAt(s.big, i);
    assert UnlinkBig(s, p) == UnlinkAt(s, i);
  }

  /** A write of data over the whole contents of the live block p. */
  function Write(s: Alloc, p: Ptr, data: seq<byte>): Alloc {
    s.(bytes := s.bytes[p := data])
  }

  lemma WriteOk(s: Alloc, regions: map<nat, nat>, p: Ptr, data: seq<byte>)
    requires AllocOk(s, regions) && p in s.caps && |data| == s.caps[p]
    ensures AllocOk(Write(s, p, data), regions)
  {
  }
}
