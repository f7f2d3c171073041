/** The big-block list of an arena: a doubly-linked list threaded through the
    headers of big blocks, between a head and a tail sentinel embedded in the
    arena's control block. Links are maps from node to node; the ghost list
    of regions names the linked blocks in order. */
module BigList {
  import opened Sequences

  /** A node: one of the two sentinels, or the header of the block that
      malloc placed at a region. */
  datatype BigNode = BigHead | BigTail | BigBlock(region: nat)

  /** Node k of the list l, counting the head sentinel as -1 and the tail
      sentinel as |l|. */
  function NodeAt(l: seq<nat>, k: int): (n: BigNode)
    requires -1 <= k <= |l|
    ensures n == BigTail <==> k == |l|
    ensures n == BigHead <==> k == -1
  {
    if k == -1 then BigHead else if k == |l| then BigTail else BigBlock(l[k])
  }

  /** The maps link head, the blocks of l in order, and tail. The tail's prev
      is only meaningful once a block has been linked (it starts out zeroed),
      and the tail's next points back at the head. */
  ghost predicate Linked(l: seq<nat>, next: map<BigNode, BigNode>, prev: map<BigNode, BigNode>) {
    && BigHead in next && next[BigHead] == NodeAt(l, 0)
    && (forall k {:trigger next[BigBlock(l[k])]} {:trigger BigBlock(l[k]) in next} :: 0 <= k < |l| ==>
          BigBlock(l[k]) in next && next[BigBlock(l[k])] == NodeAt(l, k + 1))
    && (forall k {:trigger prev[BigBlock(l[k])]} {:trigger BigBlock(l[k]) in prev} :: 0 <= k < |l| ==>
          BigBlock(l[k]) in prev && prev[BigBlock(l[k])] == NodeAt(l, k - 1))
    && (|l| > 0 ==> BigTail in prev && prev[BigTail] == BigBlock(l[|l| - 1]))
    && BigTail in next && next[BigTail] == BigHead
  }

  /** The list is linked, each block appears once, and each is a region
      malloc handed out. */
  ghost predicate ListOk(l: seq<nat>, next: map<BigNode, BigNode>, prev: map<BigNode, BigNode>,
                         regions: map<nat, nat>) {
    && NoDup(l)
    && (forall k :: 0 <= k < |l| ==> l[k] in regions)
    && Linked(l, next, prev)
  }

  /** The empty list: arenaimp_init points head and tail at each other. */
  lemma EmptyOk(regions: map<nat, nat>)
    ensures ListOk([], map[BigHead := BigTail, BigTail := BigHead], map[], regions)
  {
  }

  /** Linking a new block right after the head (the big path of
      aalloc_uninit_size) puts its region first and keeps the list linked. */
  lemma PushOk(l: seq<nat>, next: map<BigNode, BigNode>, prev: map<BigNode, BigNode>,
               regions: map<nat, nat>, r: nat)
    requires ListOk(l, next, prev, regions) && r !in l && r in regions
    ensures ListOk([r] + l,
      next[BigBlock(r) := next[BigHead]][BigHead := BigBlock(r)],
      prev[BigBlock(r) := BigHead][next[BigHead] := BigBlock(r)],
      regions)
  {
    var l' := [r] + l;
    var next' := next[BigBlock(r) := next[BigHead]][BigHead := BigBlock(r)];
    var prev' := prev[BigBlock(r) := BigHead][next[BigHead] := BigBlock(r)];
    forall k | 0 <= k < |l'|
      ensures BigBlock(l'[k]) in next' && next'[BigBlock(l'[k])] == NodeAt(l', k + 1)
      ensures BigBlock(l'[k]) in prev' && prev'[BigBlock(l'[k])] == NodeAt(l', k - 1)
    {
      if k > 0 {
        assert l'[k] == l[k - 1];
        assert NodeAt(l', k + 1) == NodeAt(l, k);
        if k > 1 {
          NoDupAt(l, k - 1, 0);
          assert next[BigHead] != BigBlock(l'[k]);
          assert NodeAt(l', k - 1) == NodeAt(l, k - 2);
        }
      } else {
        assert l != [] ==> l[0] in l;
        assert next[BigHead] != BigBlock(r);
      }
    }
    assert NoDup(l') by {
      assert l'[1..] == l;
      NoDupCons(l');
    }
    assert Linked(l', next', prev');
  }

  /** The neighbours of the block at position i are the nodes on either side
      of it, and they point back at it: the check afree makes before it
      unlinks a block always holds. */
  lemma Neighbours(l: seq<nat>, next: map<BigNode, BigNode>, prev: map<BigNode, BigNode>, i: nat)
    requires Linked(l, next, prev) && i < |l|
    ensures prev[BigBlock(l[i])] == NodeAt(l, i - 1) && next[BigBlock(l[i])] == NodeAt(l, i + 1)
    ensures NodeAt(l, i - 1) in next && next[NodeAt(l, i - 1)] == BigBlock(l[i])
    ensures NodeAt(l, i + 1) in prev && prev[NodeAt(l, i + 1)] == BigBlock(l[i])
  {
    if i > 0 {
      assert NodeAt(l, i - 1) == BigBlock(l[i - 1]);
      assert NodeAt(l, i - 1 + 1) == BigBlock(l[i]);
    }
    if i + 1 < |l| {
      assert NodeAt(l, i + 1) == BigBlock(l[i + 1]);
      assert NodeAt(l, i + 1 - 1) == BigBlock(l[i]);
    }
  }

  /** After unlinking position i, the node at position k of the shortened
      list is linked to its new neighbours. */
  lemma UnlinkNode(l: seq<nat>, next: map<BigNode, BigNode>, prev: map<BigNode, BigNode>, i: nat, k: nat)
    requires Linked(l, next, prev) && NoDup(l) && i < |l| && k + 1 < |l|
    ensures var l' := l[..i] + l[i + 1..];
      && BigBlock(l'[k]) in next[NodeAt(l, i - 1) := NodeAt(l, i + 1)]
      && next[NodeAt(l, i - 1) := NodeAt(l, i + 1)][BigBlock(l'[k])] == NodeAt(l', k + 1)
      && BigBlock(l'[k]) in prev[NodeAt(l, i + 1) := NodeAt(l, i - 1)]
      && prev[NodeAt(l, i + 1) := NodeAt(l, i - 1)][BigBlock(l'[k])] == NodeAt(l', k - 1)
  {
    var l' := l[..i] + l[i + 1..];
    assert |l'| == |l| - 1;
    NoDupDistinct(l);
    if k < i {
      assert l'[k] == l[k];
      assert l[k] != l[i];
      assert NodeAt(l', k - 1) == NodeAt(l, k - 1);
      if k + 1 < i {
        assert NodeAt(l', k + 1) == NodeAt(l, k + 1);
        assert l[k] != l[i - 1];
      } else {
        assert NodeAt(l', k + 1) == NodeAt(l, i + 1);
      }
    } else {
      assert l'[k] == l[k + 1];
      assert l[k + 1] != l[i];
      assert NodeAt(l', k + 1) == NodeAt(l, k + 2);
      if k > i {
        assert NodeAt(l', k - 1) == NodeAt(l, k);
        assert i == 0 || l[k + 1] != l[i - 1];
      } else {
        assert NodeAt(l', k - 1) == NodeAt(l, i - 1);
      }
    }
  }

  /** Unlinking the block at position i (prev->next = next; next->prev = prev)
      removes exactly that region and keeps the rest linked. */
  lemma UnlinkOk(l: seq<nat>, next: map<BigNode, BigNode>, prev: map<BigNode, BigNode>,
                 regions: map<nat, nat>, i: nat)
    requires ListOk(l, next, prev, regions) && i < |l|
    ensures prev[BigBlock(l[i])] == NodeAt(l, i - 1) && next[BigBlock(l[i])] == NodeAt(l, i + 1)
    ensures ListOk(l[..i] + l[i + 1..],
      next[NodeAt(l, i - 1) := NodeAt(l, i + 1)],
      prev[NodeAt(l, i + 1) := NodeAt(l, i - 1)],
      regions)
  {
    Neighbours(l, next, prev, i);
    var l' := l[..i] + l[i + 1..];
    var pv, nx := NodeAt(l, i - 1), NodeAt(l, i + 1);
    var next' := next[pv := nx];
    var prev' := prev[nx := pv];
    CutNoDup(l, i);
    assert |l'| == |l| - 1;
    forall k | 0 <= k < |l'|
      ensures BigBlock(l'[k]) in next' && next'[BigBlock(l'[k])] == NodeAt(l', k + 1)
      ensures BigBlock(l'[k]) in prev' && prev'[BigBlock(l'[k])] == NodeAt(l', k - 1)
    {
      UnlinkNode(l, next, prev, i, k);
    }
    if |l'| > 0 {
      if i == |l| - 1 {
        assert pv == BigBlock(l'[|l'| - 1]);
      } else {
        assert l'[|l'| - 1] == l[|l| - 1];
        assert BigTail != nx;
      }
    }
    assert next'[BigHead] == NodeAt(l', 0) by {
      if i > 0 {
        assert NodeAt(l', 0) == NodeAt(l, 0);
      }
    }
    assert Linked(l', next', prev');
    assert forall k :: 0 <= k < |l'| ==> l'[k] in l;
  }

  /** Region sizes are the only thing read from the heap, and they only grow. */
  lemma ListOkMono(l: seq<nat>, next: map<BigNode, BigNode>, prev: map<BigNode, BigNode>,
                   r1: map<nat, nat>, r2: map<nat, nat>)
    requires ListOk(l, next, prev, r1)
    requires forall r :: r in r1 ==> r in r2
    ensures ListOk(l, next, prev, r2)
  {
  }
}
