/** The deferred-callback registry of an arena, on plain values: a table of
    slots threaded by index into a doubly-linked active list (newest first)
    and a singly-linked free list, both ended by NONE. The lemmas are the
    steps of arena_ext_defer, arena_ext_redefer and arena_ext_cancel. */
module Registry {
  import opened Memory
  import opened Sequences

  /** SIZE_MAX: the end of a slot list, and the failure result of a registration. */
  const NONE: nat := 0xFFFF_FFFF_FFFF_FFFF

  /** A defer slot. fn == NoCallback is the cleared (NULL) function pointer. */
  datatype Slot = Slot(fn: Callback, user: Ptr, prev: nat, next: nat)

  function HeadOf(l: seq<nat>): nat {
    if l == [] then NONE else l[0]
  }

  /** The index after position k of l, NONE at the end. */
  function After(l: seq<nat>, k: nat): nat
    requires k < |l|
  {
    if k + 1 < |l| then l[k + 1] else NONE
  }

  /** The index before position k of l, NONE at the start. */
  function Before(l: seq<nat>, k: nat): nat
    requires k < |l|
  {
    if k == 0 then NONE else l[k - 1]
  }

  /** Every slot index below n is in exactly one of the two lists. */
  ghost predicate Partition(active: seq<nat>, free: seq<nat>, n: nat) {
    && NoDup(active) && NoDup(free)
    && (forall s :: s in active ==> s < n && s !in free)
    && (forall s :: s in free ==> s < n)
    && |active| + |free| == n
  }

  ghost predicate ActiveLinked(defers: seq<Slot>, l: seq<nat>) {
    && (forall k :: 0 <= k < |l| ==> l[k] < |defers|)
    && (forall k {:trigger defers[l[k]]} :: 0 <= k < |l| ==>
          defers[l[k]].next == After(l, k) && defers[l[k]].prev == Before(l, k))
  }

  ghost predicate FreeLinked(defers: seq<Slot>, l: seq<nat>) {
    && (forall k :: 0 <= k < |l| ==> l[k] < |defers|)
    && (forall k {:trigger defers[l[k]]} :: 0 <= k < |l| ==> defers[l[k]].next == After(l, k))
  }

  /** The table holds n slots, the lists partition them, the heads are the
      first elements, and the prev/next indices link the lists in order. */
  ghost predicate RegistryOk(defers: seq<Slot>, n: nat, activeHead: nat, freeHead: nat,
                             active: seq<nat>, free: seq<nat>) {
    && |defers| == n < NONE
    && Partition(active, free, n)
    && activeHead == HeadOf(active) && freeHead == HeadOf(free)
    && ActiveLinked(defers, active) && FreeLinked(defers, free)
  }

  /** The calls made for the slots l, in list order. */
  ghost function Fired(defers: seq<Slot>, l: seq<nat>): (r: seq<Event>)
    requires forall k :: 0 <= k < |l| ==> l[k] < |defers|
    ensures |r| == |l|
  {
    seq(|l|, k requires 0 <= k < |l| => Ran(defers[l[k]].fn, defers[l[k]].user))
  }

  lemma FiredCut(defers: seq<Slot>, l: seq<nat>, i: nat)
    requires forall k :: 0 <= k < |l| ==> l[k] < |defers|
    requires i < |l|
    ensures var l' := l[..i] + l[i + 1..];
      (forall k :: 0 <= k < |l'| ==> l'[k] < |defers|)
      && Fired(defers, l') == Fired(defers, l)[..i] + Fired(defers, l)[i + 1..]
  {
    var l' := l[..i] + l[i + 1..];
    assert forall k :: 0 <= k < |l'| ==> l'[k] == (if k < i then l[k] else l[k + 1]);
  }

  /** Fired only looks at fn and user of the slots in l. */
  lemma FiredFrame(d1: seq<Slot>, d2: seq<Slot>, l: seq<nat>)
    requires forall k :: 0 <= k < |l| ==> l[k] < |d1| && l[k] < |d2|
    requires forall k :: 0 <= k < |l| ==> d1[l[k]].fn == d2[l[k]].fn && d1[l[k]].user == d2[l[k]].user
    ensures Fired(d1, l) == Fired(d2, l)
  {
  }

  lemma EmptyOk()
    ensures RegistryOk([], 0, NONE, NONE, [], [])
  {
  }

  /** Registration into a reused slot: the free head leaves the free list and
      becomes the head of the active list; the old head points back at it. */
  lemma ReuseOk(defers: seq<Slot>, n: nat, active: seq<nat>, free: seq<nat>, fn: Callback, user: Ptr)
    requires RegistryOk(defers, n, HeadOf(active), HeadOf(free), active, free) && free != []
    ensures HeadOf(active) == NONE || HeadOf(active) < n
    ensures var slot := free[0];
      var d2 := LinkHead(defers, slot, fn, user, HeadOf(active));
      && slot < n && defers[slot].next == HeadOf(free[1..])
      && RegistryOk(d2, n, slot, HeadOf(free[1..]), [slot] + active, free[1..])
      && Fired(d2, [slot] + active) == [Ran(fn, user)] + Fired(defers, active)
  {
    var slot := free[0];
    assert slot in free;
    NoDupCons(free);
    var d2 := LinkHead(defers, slot, fn, user, HeadOf(active));
    assert defers[free[0]].next == After(free, 0);
    LinkAtHead(defers, n, active, free[1..], slot, fn, user);
    forall k | 0 <= k < |free[1..]|
      ensures defers[free[1..][k]].next == After(free[1..], k)
    {
      assert free[1..][k] == free[k + 1];
      assert defers[free[k + 1]].next == After(free, k + 1);
    }
    assert Partition([slot] + active, free[1..], n) by {
      PushPartition(active, free, n);
    }
  }

  /** Registration into a new slot at the end of a grown table. */
  lemma GrowOk(defers: seq<Slot>, n: nat, active: seq<nat>, fn: Callback, user: Ptr, junk: Slot)
    requires RegistryOk(defers, n, HeadOf(active), NONE, active, []) && n + 1 < NONE
    ensures HeadOf(active) == NONE || HeadOf(active) < n
    ensures var d2 := LinkHead(defers + [junk], n, fn, user, HeadOf(active));
      && RegistryOk(d2, n + 1, n, NONE, [n] + active, [])
      && Fired(d2, [n] + active) == [Ran(fn, user)] + Fired(defers, active)
  {
    var grown := defers + [junk];
    assert ActiveLinked(grown, active) by {
      forall k | 0 <= k < |active|
        ensures grown[active[k]] == defers[active[k]]
      {
      }
    }
    assert Partition(active, [n], n + 1);
    LinkAtHead(grown, n + 1, active, [], n, fn, user);
    FiredFrame(grown, defers, active);
    assert Partition([n] + active, [], n + 1) by {
      PushPartition(active, [n], n + 1);
    }
  }

  lemma PushPartition(active: seq<nat>, free: seq<nat>, n: nat)
    requires Partition(active, free, n) && free != []
    ensures Partition([free[0]] + active, free[1..], n)
  {
    var a' := [free[0]] + active;
    assert free[0] in free && free[0] !in active;
    assert NoDup(a') by {
      assert a'[1..] == active;
      NoDupCons(a');
    }
    NoDupCons(free);
    forall s | s in free[1..]
      ensures s != free[0] && s !in active && s < n
    {
      assert s in free;
    }
  }

  /** The table after a registration writes slot (fn, user, prev NONE, next
      the old head) and points the old head's prev at slot. */
  function LinkHead(defers: seq<Slot>, slot: nat, fn: Callback, user: Ptr, head: nat): (d: seq<Slot>)
    requires slot < |defers| && (head == NONE || head < |defers|)
    ensures |d| == |defers|
  {
    var d1 := defers[slot := Slot(fn, user, NONE, head)];
    if head != NONE then d1[head := d1[head].(prev := slot)] else d1
  }

  /** One node of the active list after a registration at its head. */
  lemma LinkNode(defers: seq<Slot>, active: seq<nat>, slot: nat, fn: Callback, user: Ptr, k: nat)
    requires slot < |defers| < NONE && slot !in active && NoDup(active) && ActiveLinked(defers, active)
    requires 0 < k < |active| + 1
    ensures HeadOf(active) == NONE || HeadOf(active) < |defers|
    ensures var d := LinkHead(defers, slot, fn, user, HeadOf(active));
      var l := [slot] + active;
      d[l[k]].next == After(l, k) && d[l[k]].prev == Before(l, k)
  {
    var head := HeadOf(active);
    var d := LinkHead(defers, slot, fn, user, head);
    var l := [slot] + active;
    NoDupDistinct(active);
    assert l[k] == active[k - 1] && l[k] != slot;
    assert defers[active[k - 1]].next == After(active, k - 1);
    assert After(l, k) == After(active, k - 1);
    if k == 1 {
      assert head == active[0] < |defers| && head != slot;
    } else {
      assert active[k - 1] != active[0];
      assert d[l[k]] == defers[active[k - 1]];
      assert defers[active[k - 1]].prev == Before(active, k - 1);
      assert Before(l, k) == Before(active, k - 1);
    }
  }

  lemma LinkActive(defers: seq<Slot>, active: seq<nat>, slot: nat, fn: Callback, user: Ptr)
    requires slot < |defers| < NONE && slot !in active && NoDup(active) && ActiveLinked(defers, active)
    ensures HeadOf(active) == NONE || HeadOf(active) < |defers|
    ensures ActiveLinked(LinkHead(defers, slot, fn, user, HeadOf(active)), [slot] + active)
  {
    var d := LinkHead(defers, slot, fn, user, HeadOf(active));
    var l := [slot] + active;
    assert d[slot] == Slot(fn, user, NONE, HeadOf(active));
    forall k | 0 < k < |l|
      ensures d[l[k]].next == After(l, k) && d[l[k]].prev == Before(l, k)
    {
      LinkNode(defers, active, slot, fn, user, k);
    }
  }

  lemma LinkFree(defers: seq<Slot>, active: seq<nat>, free: seq<nat>, slot: nat, fn: Callback, user: Ptr)
    requires slot < |defers| < NONE && slot !in free && ActiveLinked(defers, active)
    requires FreeLinked(defers, free)
    ensures HeadOf(active) == NONE || HeadOf(active) < |defers|
    ensures FreeLinked(LinkHead(defers, slot, fn, user, HeadOf(active)), free)
  {
    var d := LinkHead(defers, slot, fn, user, HeadOf(active));
    forall k | 0 <= k < |free|
      ensures d[free[k]].next == After(free, k)
    {
      assert free[k] != slot;
      assert defers[free[k]].next == After(free, k);
    }
  }

  lemma LinkFired(defers: seq<Slot>, active: seq<nat>, slot: nat, fn: Callback, user: Ptr)
    requires slot < |defers| < NONE && slot !in active && ActiveLinked(defers, active)
    ensures HeadOf(active) == NONE || HeadOf(active) < |defers|
    ensures var d := LinkHead(defers, slot, fn, user, HeadOf(active));
      && (forall k :: 0 <= k < |active| + 1 ==> ([slot] + active)[k] < |d|)
      && Fired(d, [slot] + active) == [Ran(fn, user)] + Fired(defers, active)
  {
    var d := LinkHead(defers, slot, fn, user, HeadOf(active));
    var l := [slot] + active;
    assert d[slot] == Slot(fn, user, NONE, HeadOf(active));
    forall k | 0 <= k < |active|
      ensures d[active[k]].fn == defers[active[k]].fn && d[active[k]].user == defers[active[k]].user
    {
      assert active[k] != slot;
    }
    FiredFrame(d, defers, active);
    assert Fired(d, l)[1..] == Fired(d, active);
  }

  /** The common tail of both registration paths keeps both lists linked and
      puts the new call first among the pending ones. */
  lemma LinkAtHead(defers: seq<Slot>, n: nat, active: seq<nat>, free: seq<nat>, slot: nat,
                   fn: Callback, user: Ptr)
    requires |defers| == n < NONE && slot < n && slot !in active && slot !in free
    requires NoDup(active) && ActiveLinked(defers, active) && FreeLinked(defers, free)
    ensures HeadOf(active) == NONE || HeadOf(active) < n
    ensures var d := LinkHead(defers, slot, fn, user, HeadOf(active));
      && ActiveLinked(d, [slot] + active) && FreeLinked(d, free)
      && Fired(d, [slot] + active) == [Ran(fn, user)] + Fired(defers, active)
  {
    LinkActive(defers, active, slot, fn, user);
    LinkFree(defers, active, free, slot, fn, user);
    LinkFired(defers, active, slot, fn, user);
  }

  /** The slot's neighbours both lie inside the table (or are NONE). */
  ghost predicate NeighboursIn(defers: seq<Slot>, slot: nat) {
    && slot < |defers|
    && (defers[slot].prev == NONE || defers[slot].prev < |defers|)
    && (defers[slot].next == NONE || defers[slot].next < |defers|)
  }

  /** The table after arena_ext_cancel points the slot's neighbours past it. */
  function Unlinked(defers: seq<Slot>, slot: nat): (d: seq<Slot>)
    requires NeighboursIn(defers, slot)
    ensures |d| == |defers|
  {
    var ds := defers[slot];
    var d1 := if ds.prev != NONE then defers[ds.prev := defers[ds.prev].(next := ds.next)] else defers;
    if ds.next != NONE then d1[ds.next := d1[ds.next].(prev := ds.prev)] else d1
  }

  /** The table after arena_ext_cancel: unlinked, and the slot cleared and
      pushed on the free list whose head was freeHead. */
  function CancelTable(defers: seq<Slot>, slot: nat, freeHead: nat): (d: seq<Slot>)
    requires NeighboursIn(defers, slot)
    ensures |d| == |defers|
  {
    Unlinked(defers, slot)[slot := Slot(NoCallback, Null, NONE, freeHead)]
  }

  /** The active head after a cancel: unchanged unless the slot was the head. */
  function HeadAfterCancel(defers: seq<Slot>, slot: nat, activeHead: nat): nat
    requires slot < |defers|
  {
    if defers[slot].prev != NONE then activeHead else defers[slot].next
  }

  lemma ActiveNeighbours(defers: seq<Slot>, active: seq<nat>, i: nat)
    requires ActiveLinked(defers, active) && i < |active|
    ensures NeighboursIn(defers, active[i])
    ensures defers[active[i]].prev == Before(active, i) && defers[active[i]].next == After(active, i)
  {
  }

  /** One node of the shortened active list after unlinking position i. */
  lemma CancelNode(defers: seq<Slot>, active: seq<nat>, i: nat, k: nat)
    requires |defers| < NONE && NoDup(active) && ActiveLinked(defers, active)
    requires i < |active| && k + 1 < |active|
    ensures NeighboursIn(defers, active[i])
    ensures var d := Unlinked(defers, active[i]);
      var cut := active[..i] + active[i + 1..];
      d[cut[k]].next == After(cut, k) && d[cut[k]].prev == Before(cut, k)
  {
    ActiveNeighbours(defers, active, i);
    var slot := active[i];
    var d := Unlinked(defers, slot);
    var cut := active[..i] + active[i + 1..];
    assert |cut| == |active| - 1;
    NoDupDistinct(active);
    if k < i {
      assert cut[k] == active[k] && active[k] != slot;
      assert defers[active[k]].next == After(active, k) && defers[active[k]].prev == Before(active, k);
      assert Before(cut, k) == Before(active, k);
      assert i + 1 < |active| ==> active[k] != active[i + 1];
      if k + 1 < i {
        assert active[k] != active[i - 1];
        assert After(cut, k) == After(active, k);
      } else {
        assert After(cut, k) == After(active, i);
      }
    } else {
      assert cut[k] == active[k + 1] && active[k + 1] != slot;
      assert defers[active[k + 1]].next == After(active, k + 1);
      assert defers[active[k + 1]].prev == Before(active, k + 1);
      assert After(cut, k) == After(active, k + 1);
      assert i > 0 ==> active[k + 1] != active[i - 1];
      if k > i {
        assert active[k + 1] != active[i + 1];
        assert Before(cut, k) == Before(active, k + 1);
      } else {
        assert Before(cut, k) == Before(active, i);
      }
    }
  }

  /** A cancel rewrites only the slot and its two neighbours. */
  lemma CancelTableAway(defers: seq<Slot>, slot: nat, freeHead: nat, j: nat)
    requires NeighboursIn(defers, slot) && j < |defers|
    requires j != slot && j != defers[slot].prev && j != defers[slot].next
    ensures CancelTable(defers, slot, freeHead)[j] == defers[j]
  {
  }

  /** The free list's nodes are untouched by unlinking an active slot. */
  lemma CancelFree(defers: seq<Slot>, n: nat, active: seq<nat>, free: seq<nat>, i: nat)
    requires RegistryOk(defers, n, HeadOf(active), HeadOf(free), active, free) && i < |active|
    ensures NeighboursIn(defers, active[i])
    ensures FreeLinked(CancelTable(defers, active[i], HeadOf(free)), [active[i]] + free)
  {
    ActiveNeighbours(defers, active, i);
    var slot := active[i];
    var d := CancelTable(defers, slot, HeadOf(free));
    var l := [slot] + free;
    forall k | 0 <= k < |free|
      ensures d[free[k]] == defers[free[k]]
    {
      var j := free[k];
      assert j in free && j !in active;
      assert i > 0 ==> active[i - 1] in active;
      assert i + 1 < |active| ==> active[i + 1] in active;
      CancelTableAway(defers, slot, HeadOf(free), j);
    }
    forall k | 0 < k < |l|
      ensures d[l[k]].next == After(l, k)
    {
      assert l[k] == free[k - 1];
      assert defers[free[k - 1]].next == After(free, k - 1);
    }
    assert d[slot].next == After(l, 0);
  }

  lemma CancelPartition(active: seq<nat>, free: seq<nat>, n: nat, i: nat)
    requires Partition(active, free, n) && i < |active|
    ensures Partition(active[..i] + active[i + 1..], [active[i]] + free, n)
  {
    var slot := active[i];
    var cut := active[..i] + active[i + 1..];
    var f := [slot] + free;
    CutNoDup(active, i);
    WithoutAt(active, i);
    assert slot in active && slot !in free;
    assert NoDup(f) by {
      assert f[1..] == free;
      NoDupCons(f);
    }
  }

  /** Unlinking only rewrites prev and next fields. */
  lemma UnlinkedKeepsCalls(defers: seq<Slot>, slot: nat, j: nat)
    requires NeighboursIn(defers, slot) && j < |defers|
    ensures Unlinked(defers, slot)[j].fn == defers[j].fn
    ensures Unlinked(defers, slot)[j].user == defers[j].user
  {
  }

  lemma CancelActive(defers: seq<Slot>, active: seq<nat>, freeHead: nat, i: nat)
    requires |defers| < NONE && NoDup(active) && ActiveLinked(defers, active) && i < |active|
    ensures NeighboursIn(defers, active[i])
    ensures ActiveLinked(CancelTable(defers, active[i], freeHead), active[..i] + active[i + 1..])
  {
    ActiveNeighbours(defers, active, i);
    var slot := active[i];
    var cut := active[..i] + active[i + 1..];
    var d := CancelTable(defers, slot, freeHead);
    forall k | 0 <= k < |cut|
      ensures cut[k] < |d| && d[cut[k]].next == After(cut, k) && d[cut[k]].prev == Before(cut, k)
    {
      var j := if k < i then k else k + 1;
      assert cut[k] == active[j];
      NoDupAt(active, i, j);
      assert cut[k] != slot;
      CancelNode(defers, active, i, k);
    }
  }

  lemma CancelFired(defers: seq<Slot>, active: seq<nat>, freeHead: nat, i: nat)
    requires NoDup(active) && ActiveLinked(defers, active) && i < |active|
    ensures NeighboursIn(defers, active[i])
    ensures var cut := active[..i] + active[i + 1..];
      var d := CancelTable(defers, active[i], freeHead);
      && (forall k :: 0 <= k < |cut| ==> cut[k] < |d|)
      && Fired(d, cut) == Fired(defers, active)[..i] + Fired(defers, active)[i + 1..]
  {
    ActiveNeighbours(defers, active, i);
    var slot := active[i];
    var cut := active[..i] + active[i + 1..];
    var d := CancelTable(defers, slot, freeHead);
    FiredCut(defers, active, i);
    forall k | 0 <= k < |cut|
      ensures cut[k] < |d| && d[cut[k]].fn == defers[cut[k]].fn && d[cut[k]].user == defers[cut[k]].user
    {
      var j := if k < i then k else k + 1;
      assert cut[k] == active[j];
      NoDupAt(active, i, j);
      assert cut[k] != slot;
      UnlinkedKeepsCalls(defers, slot, cut[k]);
    }
    FiredFrame(d, defers, cut);
  }

  lemma CancelHead(defers: seq<Slot>, active: seq<nat>, i: nat)
    requires |defers| < NONE && NoDup(active) && ActiveLinked(defers, active) && i < |active|
    ensures HeadAfterCancel(defers, active[i], HeadOf(active)) == HeadOf(active[..i] + active[i + 1..])
  {
    var cut := active[..i] + active[i + 1..];
    ActiveNeighbours(defers, active, i);
    if i > 0 {
      assert cut[0] == active[0];
    } else if |active| > 1 {
      assert cut[0] == active[1];
    }
  }

  /** Cancelling the active slot at position i (arena_ext_cancel) takes it out
      of the active list, keeps the other pending calls in order, and makes
      it the head of the free list. */
  lemma CancelOk(defers: seq<Slot>, n: nat, active: seq<nat>, free: seq<nat>, i: nat)
    requires RegistryOk(defers, n, HeadOf(active), HeadOf(free), active, free) && i < |active|
    ensures NeighboursIn(defers, active[i])
    ensures var slot := active[i];
      var cut := active[..i] + active[i + 1..];
      var d := CancelTable(defers, slot, HeadOf(free));
      && HeadAfterCancel(defers, slot, HeadOf(active)) == HeadOf(cut)
      && RegistryOk(d, n, HeadOf(cut), slot, cut, [slot] + free)
      && Fired(d, cut) == Fired(defers, active)[..i] + Fired(defers, active)[i + 1..]
  {
    CancelActive(defers, active, HeadOf(free), i);
    CancelFired(defers, active, HeadOf(free), i);
    CancelFree(defers, n, active, free, i);
    CancelPartition(active, free, n, i);
    CancelHead(defers, active, i);
  }

  /** The same step named by the slot rather than its position: the slot
      leaves the active list, every other pending call stays as it was. */
  lemma CancelSlot(defers: seq<Slot>, n: nat, activeHead: nat, freeHead: nat,
                   active: seq<nat>, free: seq<nat>, slot: nat)
    requires RegistryOk(defers, n, activeHead, freeHead, active, free) && slot in active
    ensures NeighboursIn(defers, slot)
    ensures var d := CancelTable(defers, slot, freeHead);
      var rest := Without(active, slot);
      && RegistryOk(d, n, HeadAfterCancel(defers, slot, activeHead), slot, rest, [slot] + free)
      && Fired(d, rest) == Fired(defers, rest)
  {
    var i := IndexOf(active, slot);
    CancelOk(defers, n, active, free, i);
    FiredCut(defers, active, i);
    WithoutAt(active, i);
  }

  /** arena_ext_redefer rewrites a slot's call and changes nothing else: the
      lists stay as they are, and the pending call at the slot's position
      is the new one. */
  lemma RedeferOk(defers: seq<Slot>, n: nat, active: seq<nat>, free: seq<nat>, slot: nat,
                  fn: Callback, user: Ptr)
    requires RegistryOk(defers, n, HeadOf(active), HeadOf(free), active, free) && slot < n
    ensures var d := defers[slot := defers[slot].(fn := fn, user := user)];
      && RegistryOk(d, n, HeadOf(active), HeadOf(free), active, free)
      && (forall k :: 0 <= k < |active| && active[k] == slot ==>
            Fired(d, active) == Fired(defers, active)[k := Ran(fn, user)])
      && (slot !in active ==> Fired(d, active) == Fired(defers, active))
  {
    var d := defers[slot := defers[slot].(fn := fn, user := user)];
    NoDupDistinct(active);
    assert ActiveLinked(d, active) by {
      forall k | 0 <= k < |active|
        ensures d[active[k]].next == defers[active[k]].next && d[active[k]].prev == defers[active[k]].prev
      {
      }
    }
    assert FreeLinked(d, free) by {
      forall k | 0 <= k < |free|
        ensures d[free[k]].next == defers[free[k]].next
      {
      }
    }
  }
}
