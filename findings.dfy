/** Places where arena.c as written departs from what it evidently intends.
    Each departure is stated here on the code as written and shown on a
    concrete input; the rest of the model follows the intended behaviour,
    which is proved where it is defined (or here, for the teardown walk). */
module Findings {
  import opened SizeClasses
  import opened Memory
  import opened Sequences
  import opened Blocks
  import opened AllocState
  import opened Registry
  import opened Arenas
  import opened ArenaLists

  /** sizeof(a) for the pointer a of arena_create, on a 64-bit target. */
  const POINTER_SIZE: nat := 8

  /** The bytes arena_create mallocs for a root arena as written:
      sizeof(a) + ARENAIMP_EXTRA_SIZE, where a is a pointer, so the control
      block's own size is replaced by the size of a pointer. */
  const ROOT_BYTES_AS_WRITTEN: nat := POINTER_SIZE + EXTRA_SIZE

  /** A root arena made as written: arenaimp_init still takes the first page
      to be INIT_SIZE bytes, more than the region holds, so the cursor
      invariant fails from the start, and a 200-byte request, which the
      page test accepts, is carved past the end of the region. */
  lemma RootPageOverruns(r: nat)
    ensures ROOT_BYTES_AS_WRITTEN < INIT_SIZE
    ensures var s := Initial(At(r, 0));
      !CursorOk(s.page, s.pos, s.size, s.nextSize, map[r := ROOT_BYTES_AS_WRITTEN])
    ensures var s := Initial(At(r, 0));
      var c := ClassFor(200);
      && s.size - s.pos >= Chunk(c)
      && End(CarvedAt(s), c) > ROOT_BYTES_AS_WRITTEN
  {
    ClassOfTable(200 + SMALL_HEADER);
    ClassUnitsAt(7);
  }

  /** The fresh-page path of aalloc_uninit_size as written: an adopted page
      gets the cursor total_small, the bytes the first block asked for,
      rather than the end of the first block's class chunk. */
  function FirstOnPageAsWritten(s: Alloc, newPage: Ptr, pageSize: nat, total: nat, junk: seq<byte>,
                                adopt: bool): Alloc
    requires newPage.At? && total + SMALL_HEADER <= LARGEST_SIZE_CLASS
  {
    var t := FirstOnPage(s, newPage, pageSize, total, junk, adopt);
    if adopt then t.(pos := total + SMALL_HEADER) else t
  }

  /** When the request does not fill its class chunk, the cursor left as
      written lies inside the first block's chunk: the next carve's header
      is within that chunk, which the block fills once it is freed and
      handed out again from its class list. No region sizes make the
      carved blocks sound. */
  lemma FirstOnPageOverlaps(s: Alloc, newPage: Ptr, pageSize: nat, total: nat, junk: seq<byte>)
    requires newPage.At? && total + SMALL_HEADER <= LARGEST_SIZE_CLASS
    requires total + SMALL_HEADER < Chunk(ClassFor(total))
    ensures var t := FirstOnPageAsWritten(s, newPage, pageSize, total, junk, true);
      var p := Offset(newPage, SMALL_HEADER);
      && p in t.small && t.small[p] == ClassFor(total) && t.page == newPage
      && CarvedAt(t).offset - SMALL_HEADER < End(p, t.small[p])
      && forall regions :: !CarvedOk(t.small, regions, t.page, t.pos)
  {
    var t := FirstOnPageAsWritten(s, newPage, pageSize, total, junk, true);
    var p := Offset(newPage, SMALL_HEADER);
    assert p in t.small && End(p, t.small[p]) > t.page.offset + t.pos;
  }

  /** A request of 9 bytes is one that does not fill its class chunk. */
  lemma NineBytesShort()
    ensures 9 + SMALL_HEADER <= LARGEST_SIZE_CLASS && 9 + SMALL_HEADER < Chunk(ClassFor(9))
  {
    ClassOfTable(9 + SMALL_HEADER);
    ClassUnitsAt(1);
  }

  /** afree of a big block as written (Arenas.Arena.UnlinkBlock) only
      unlinks it: afterwards the arena has no record of the region, neither
      as a live block a later afree could release nor on the big list that
      arena_free releases, so the region is never freed. */
  lemma UnlinkForgetsRegion(s: Alloc, regions: map<nat, nat>, p: Ptr)
    requires AllocOk(s, regions) && p in s.caps && s.caps[p] > LARGEST_SMALL_CAPACITY
    ensures p.At? && p.region in s.big
    ensures p.region !in UnlinkBig(s, p).big && p !in UnlinkBig(s, p).caps
  {
    UnlinkBigOk(s, regions, p);
  }

  /** alist_push_n_size as written, on an empty list of 1-byte items with
      n = 2 and item bytes [7, 9]: its outcome allows the block [7, 0] (the
      first slot written, the second left as arealloc_size returned it),
      whose items are not the two items pushed. */
  lemma PushNLeavesGap()
    ensures Items([7, 0], 2, 1)[..0 + 1] == [] + [Fill(Data([7, 9]), 1)]
    ensures Items(Fill(Data([7, 9]), Span(2, 1)), 2, 1) == [[7], [9]]
    ensures Items([7, 0], 2, 1) == [[7], [0]] != [[7], [9]]
  {
    var b: seq<byte>, c: seq<byte> := [7, 0], [7, 9];
    assert Span(0, 1) == 0 && Span(1, 1) == 1 && Span(2, 1) == 2;
    assert Fill(Data(c), 2) == c;
    assert Items(b, 1, 1) == [b[0..1]] && b[0..1] == [7];
    assert Items(b, 2, 1) == [[7], b[1..2]] && b[1..2] == [0];
    assert Items(c, 1, 1) == [c[0..1]] && c[0..1] == [7];
    assert Items(c, 2, 1) == [[7], c[1..2]] && c[1..2] == [9];
  }

  /** alist_remove_size as written, on the 1-byte items [1, 2] with index
      0: the list keeps [1], the item it was to remove, where the intended
      swap-remove leaves [2]. */
  lemma RemoveKeepsIndex()
    ensures var before := Items([1, 2], 2, 1);
      && before == [[1], [2]]
      && before[..1] == [[1]]
      && before[0 := before[1]][..1] == [[2]]
  {
    var b: seq<byte> := [1, 2];
    assert Span(0, 1) == 0 && Span(1, 1) == 1 && Span(2, 1) == 2;
    assert Items(b, 1, 1) == [b[0..1]] && b[0..1] == [1];
    assert Items(b, 2, 1) == [[1], b[1..2]] && b[1..2] == [2];
  }

  /** The call of a defer slot tears down a child arena that arena_create
      placed in this arena; that teardown cancels the child's slot here
      (arena_ext_cancel) from inside the call. */
  predicate CancelsItself(d: Slot, children: set<Ptr>) {
    d.fn == FreeArena && d.user in children
  }

  /** The first loop of arena_free as written, from slot on: the slot's call
      is made, and only then is its next index read, from the table that
      call may have changed. At most fuel slots are visited. */
  ghost function WalkAsWritten(defers: seq<Slot>, freeHead: nat, slot: nat, children: set<Ptr>, fuel: nat)
    : seq<Event>
    decreases fuel
  {
    if slot == NONE || fuel == 0 || !NeighboursIn(defers, slot) then []
    else
      var e := Ran(defers[slot].fn, defers[slot].user);
      if CancelsItself(defers[slot], children) then
        var d := CancelTable(defers, slot, freeHead);
        [e] + WalkAsWritten(d, slot, d[slot].next, children, fuel - 1)
      else
        [e] + WalkAsWritten(defers, freeHead, defers[slot].next, children, fuel - 1)
  }

  /** The same loop with the next index read before the call is made. */
  ghost function Walk(defers: seq<Slot>, freeHead: nat, slot: nat, children: set<Ptr>, fuel: nat): seq<Event>
    decreases fuel
  {
    if slot == NONE || fuel == 0 || !NeighboursIn(defers, slot) then []
    else
      var e := Ran(defers[slot].fn, defers[slot].user);
      var next := defers[slot].next;
      if CancelsItself(defers[slot], children) then
        [e] + Walk(CancelTable(defers, slot, freeHead), slot, next, children, fuel - 1)
      else
        [e] + Walk(defers, freeHead, next, children, fuel - 1)
  }

  /** The first slot of rest, in a linked active list done + rest, links to
      the second, and its call comes first among the calls of rest. */
  lemma HeadStep(defers: seq<Slot>, done: seq<nat>, rest: seq<nat>)
    requires ActiveLinked(defers, done + rest) && rest != []
    ensures forall k :: 0 <= k < |rest| ==> rest[k] < |defers|
    ensures NeighboursIn(defers, rest[0]) && defers[rest[0]].next == HeadOf(rest[1..])
    ensures Fired(defers, rest) == [Ran(defers[rest[0]].fn, defers[rest[0]].user)] + Fired(defers, rest[1..])
  {
    var l := done + rest;
    assert forall k :: 0 <= k < |rest| ==> rest[k] == l[|done| + k];
    ActiveNeighbours(defers, l, |done|);
  }

  /** Cancelling the first slot of rest keeps done + the rest of rest linked
      and leaves the calls of the rest of rest as they were. */
  lemma CancelStep(defers: seq<Slot>, freeHead: nat, done: seq<nat>, rest: seq<nat>)
    requires |defers| < NONE && NoDup(done + rest) && ActiveLinked(defers, done + rest) && rest != []
    ensures NeighboursIn(defers, rest[0])
    ensures forall k :: 0 <= k < |rest| ==> rest[k] < |defers|
    ensures var d := CancelTable(defers, rest[0], freeHead);
      && NoDup(done + rest[1..]) && ActiveLinked(d, done + rest[1..])
      && Fired(d, rest[1..]) == Fired(defers, rest[1..])
  {
    var l := done + rest;
    var i := |done|;
    var slot, tail := rest[0], rest[1..];
    assert forall k :: 0 <= k < |rest| ==> rest[k] == l[i + k];
    assert l[..i] + l[i + 1..] == done + tail;
    CancelActive(defers, l, freeHead, i);
    CutNoDup(l, i);
    forall k | 0 <= k < |tail|
      ensures tail[k] != slot
    {
      assert tail[k] == l[i + 1 + k];
      NoDupAt(l, i, i + 1 + k);
    }
    CancelKeepsTail(defers, slot, freeHead, tail);
  }

  /** Cancelling a slot keeps the calls of every other slot. */
  lemma CancelKeepsTail(defers: seq<Slot>, slot: nat, freeHead: nat, tail: seq<nat>)
    requires NeighboursIn(defers, slot) && slot !in tail
    requires forall k :: 0 <= k < |tail| ==> tail[k] < |defers|
    ensures Fired(CancelTable(defers, slot, freeHead), tail) == Fired(defers, tail)
  {
    var d := CancelTable(defers, slot, freeHead);
    forall k | 0 <= k < |tail|
      ensures d[tail[k]].fn == defers[tail[k]].fn && d[tail[k]].user == defers[tail[k]].user
    {
      UnlinkedKeepsCalls(defers, slot, tail[k]);
    }
    FiredFrame(d, defers, tail);
  }

  /** Walking the rest of a linked active list done + rest, whatever the
      calls cancel of their own slots, makes the calls of rest in order. */
  lemma {:induction false} WalkRest(defers: seq<Slot>, freeHead: nat, done: seq<nat>, rest: seq<nat>,
                                    children: set<Ptr>)
    requires |defers| < NONE && NoDup(done + rest) && ActiveLinked(defers, done + rest)
    ensures forall k :: 0 <= k < |rest| ==> rest[k] < |defers|
    ensures Walk(defers, freeHead, HeadOf(rest), children, |rest|) == Fired(defers, rest)
    decreases |rest|
  {
    if rest == [] {
      return;
    }
    HeadStep(defers, done, rest);
    var slot, tail := rest[0], rest[1..];
    var e := Ran(defers[slot].fn, defers[slot].user);
    assert HeadOf(rest) == slot && |tail| == |rest| - 1;
    if CancelsItself(defers[slot], children) {
      var d := CancelTable(defers, slot, freeHead);
      CancelStep(defers, freeHead, done, rest);
      WalkRest(d, slot, done, tail, children);
      assert Walk(defers, freeHead, slot, children, |rest|) == [e] + Walk(d, slot, HeadOf(tail), children, |tail|);
    } else {
      assert (done + [slot]) + tail == done + rest;
      WalkRest(defers, freeHead, done + [slot], tail, children);
      assert Walk(defers, freeHead, slot, children, |rest|) == [e] + Walk(defers, freeHead, HeadOf(tail), children, |tail|);
    }
  }

  /** The walk that reads the next index first makes exactly the pending
      calls, newest first, even when a call cancels its own slot. */
  lemma WalkFiresPending(defers: seq<Slot>, n: nat, active: seq<nat>, free: seq<nat>, children: set<Ptr>)
    requires RegistryOk(defers, n, HeadOf(active), HeadOf(free), active, free)
    ensures Walk(defers, HeadOf(free), HeadOf(active), children, |active|) == Fired(defers, active)
  {
    assert [] + active == active;
    WalkRest(defers, HeadOf(free), [], active, children);
  }

  /** The walk as written on a registry whose newest slot tears down a child
      made by arena_create and whose older slot holds a user call: the
      child's cancel points the newest slot's next at the free list (empty
      here), so the walk stops and the older call is never made. */
  lemma WalkAsWrittenSkips()
    ensures var child := At(1, 0);
      var d := [Slot(UserCallback(7), Null, 1, NONE), Slot(FreeArena, child, NONE, 0)];
      && RegistryOk(d, 2, 1, NONE, [1, 0], [])
      && Fired(d, [1, 0]) == [Ran(FreeArena, child), Ran(UserCallback(7), Null)]
      && WalkAsWritten(d, NONE, 1, {child}, 2) == [Ran(FreeArena, child)]
  {
    var child := At(1, 0);
    var d := [Slot(UserCallback(7), Null, 1, NONE), Slot(FreeArena, child, NONE, 0)];
    assert CancelTable(d, 1, NONE)[1].next == NONE;
    assert Partition([1, 0], [], 2) by {
      NoDupDistinct([1, 0]);
      NoDupDistinct<nat>([]);
    }
  }
}
