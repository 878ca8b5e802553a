/**
 * `src/list.h`: the intrusive circular doubly linked list. A list is a ring of
 * nodes through their `next` and `prev` links, the head node first; the nodes
 * of a list are described by a ghost sequence `ring` starting at the head.
 */
module List {

  /** `struct list_head`. */
  class ListHead {
    var prev: ListHead?
    var next: ListHead?
  }

  /**
   * `ring` lists distinct nodes, each linked forward to the next and back to
   * the previous one, the last linked back round to the first.
   */
  ghost predicate IsRing(ring: seq<ListHead>)
    reads ring
  {
    && |ring| >= 1
    && Distinct(ring)
    && (forall i :: 0 <= i < |ring| - 1 ==> ring[i].next == ring[i + 1] && ring[i + 1].prev == ring[i])
    && ring[|ring| - 1].next == ring[0] && ring[0].prev == ring[|ring| - 1]
  }

  /** No node appears twice. */
  ghost predicate Distinct(ring: seq<ListHead>) {
    forall i, j :: 0 <= i < j < |ring| ==> ring[i] != ring[j]
  }

  /** `INIT_LIST_HEAD`: the head points to itself, an empty list. */
  method InitListHead(head: ListHead)
    modifies head
    ensures head.next == head && head.prev == head
    ensures IsRing([head])
  {
    head.next := head;
    head.prev := head;
  }

  /** `list_empty`: both links of the head point back to it. */
  function ListEmpty(head: ListHead): bool
    reads head
  {
    head.next == head && head.prev == head
  }

  /** On a ring headed by `head`, `list_empty` holds exactly when the head is the only node. */
  lemma ListEmptyIff(head: ListHead, ring: seq<ListHead>)
    requires IsRing(ring) && ring[0] == head
    ensures ListEmpty(head) <==> |ring| == 1
    ensures head.next == head <==> |ring| == 1
  {
    if |ring| > 1 {
      assert head.next == ring[1] != ring[0];
    }
  }

  /**
   * `__list_add`: links `node` in between the consecutive nodes `ring[i]` and
   * the one after it. Only the links of `node` and of those two neighbours
   * change.
   */
  method ListInsert(node: ListHead, prev: ListHead, next: ListHead, ghost ring: seq<ListHead>, ghost i: nat)
      returns (ghost ring': seq<ListHead>)
    requires IsRing(ring) && node !in ring
    requires i < |ring| && prev == ring[i] && next == (if i + 1 < |ring| then ring[i + 1] else ring[0])
    modifies node, prev, next
    ensures ring' == ring[..i + 1] + [node] + ring[i + 1..]
    ensures IsRing(ring')
  {
    node.next := next;
    next.prev := node;
    prev.next := node;
    node.prev := prev;
    ring' := ring[..i + 1] + [node] + ring[i + 1..];
    forall a, b | 0 <= a < b < |ring'| ensures ring'[a] != ring'[b] {
      if a <= i && b <= i {
        assert ring'[a] == ring[a] && ring'[b] == ring[b];
      } else if a > i + 1 {
        assert ring'[a] == ring[a - 1] && ring'[b] == ring[b - 1];
      } else if a <= i && b > i + 1 {
        assert ring'[a] == ring[a] && ring'[b] == ring[b - 1];
      }
    }
    forall k | 0 <= k < |ring'| - 1 ensures ring'[k].next == ring'[k + 1] && ring'[k + 1].prev == ring'[k] {
      if k < i {
        assert ring'[k] == ring[k] && ring'[k + 1] == ring[k + 1];
      } else if k > i + 1 {
        assert ring'[k] == ring[k - 1] && ring'[k + 1] == ring[k];
      }
    }
  }

  /** `list_add`: the node goes in straight after the head, at the front of the list. */
  method ListAdd(node: ListHead, head: ListHead, ghost ring: seq<ListHead>) returns (ghost ring': seq<ListHead>)
    requires IsRing(ring) && ring[0] == head && node !in ring
    modifies node, head, head.next
    ensures ring' == [head, node] + ring[1..]
    ensures IsRing(ring')
  {
    assert head.next == (if 1 < |ring| then ring[1] else ring[0]);
    ring' := ListInsert(node, head, head.next, ring, 0);
  }

  /** `list_add_tail`: the node goes in straight before the head, at the back of the list. */
  method ListAddTail(node: ListHead, head: ListHead, ghost ring: seq<ListHead>) returns (ghost ring': seq<ListHead>)
    requires IsRing(ring) && ring[0] == head && node !in ring
    modifies node, head, head.prev
    ensures ring' == ring + [node]
    ensures IsRing(ring')
  {
    ring' := ListInsert(node, head.prev, head, ring, |ring| - 1);
  }

  /**
   * `list_del`: the neighbours of `ring[i]` are linked to each other, so it
   * leaves the ring; its own links are left as they were, still pointing
   * into the list.
   */
  method ListDel(entry: ListHead, ghost ring: seq<ListHead>, ghost i: nat) returns (ghost ring': seq<ListHead>)
    requires IsRing(ring) && 0 < i < |ring| && entry == ring[i]
    modifies entry.prev, entry.next
    ensures ring' == ring[..i] + ring[i + 1..]
    ensures IsRing(ring')
    ensures entry.prev == old(entry.prev) && entry.next == old(entry.next)
  {
    var prev, next := entry.prev, entry.next;
    assert prev == ring[i - 1];
    assert next == if i + 1 < |ring| then ring[i + 1] else ring[0];
    prev.next := next;
    next.prev := prev;
    ring' := ring[..i] + ring[i + 1..];
    forall a, b | 0 <= a < b < |ring'| ensures ring'[a] != ring'[b] {
      if b < i {
        assert ring'[a] == ring[a] && ring'[b] == ring[b];
      } else if a >= i {
        assert ring'[a] == ring[a + 1] && ring'[b] == ring[b + 1];
      } else {
        assert ring'[a] == ring[a] && ring'[b] == ring[b + 1];
      }
    }
    forall k | 0 <= k < |ring'| - 1 ensures ring'[k].next == ring'[k + 1] && ring'[k + 1].prev == ring'[k] {
      if k < i - 1 {
        assert ring'[k] == ring[k] && ring'[k + 1] == ring[k + 1];
      } else if k >= i {
        assert ring'[k] == ring[k + 1] && ring'[k + 1] == ring[k + 2];
      }
    }
  }

  /** The links of the node after the head in a ring of two or more. */
  lemma RingNeighbours(cur: seq<ListHead>)
    requires IsRing(cur) && |cur| >= 2
    ensures cur[1].prev == cur[0]
    ensures cur[1].next == (if 2 < |cur| then cur[2] else cur[0])
  {
  }

  /**
   * `list_for_each_safe` with `list_del` of each visited node, as
   * `http_handle_header` runs it: every node after the head is visited once,
   * front to back, although each is unlinked while it is the cursor, and the
   * list is empty afterwards.
   */
  method DrainList(head: ListHead, ghost ring: seq<ListHead>) returns (visited: seq<ListHead>)
    requires IsRing(ring) && ring[0] == head
    modifies ring
    ensures visited == ring[1..]
    ensures ListEmpty(head)
  {
    visited := [];
    ghost var cur := ring;
    ghost var k := 1;
    var pos := head.next;
    assert pos == (if 1 < |ring| then ring[1] else head);
    var n := pos.next;
    while pos != head
      invariant 1 <= k <= |ring|
      invariant visited == ring[1..k]
      invariant cur == [head] + ring[k..] && IsRing(cur)
      invariant pos == (if k < |ring| then ring[k] else head)
      invariant n == pos.next
      decreases |ring| - k
    {
      assert k < |ring| && pos == cur[1];
      RingNeighbours(cur);
      assert pos.next == (if k + 1 < |ring| then ring[k + 1] else head) by {
        if k + 1 < |ring| {
          assert cur[2] == ring[k + 1];
        }
      }
      assert ring[1..k + 1] == ring[1..k] + [pos];
      visited := visited + [pos];
      cur := ListDel(pos, cur, 1);
      assert cur == [head] + ring[k + 1..];
      k := k + 1;
      pos := n;
      n := pos.next;
    }
    assert k == |ring|;
    ListEmptyIff(head, cur);
  }
}
