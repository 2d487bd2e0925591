/** The intrusive wait queue of src/gochan.rs: entries live in the frames of the parked
    goroutines and are threaded through their own `next` and `prev` links. */
module SudogQueue {

  import opened Bytes

  class Sudog {
    var next: Sudog?
    var prev: Sudog?

    constructor ()
      ensures next == null && prev == null
    {
      next, prev := null, null;
    }
  }

  /** The links spell out `q`, forwards and backwards. */
  ghost predicate Linked(q: seq<Sudog>)
    reads q
  {
    && (forall i, j :: 0 <= i < j < |q| ==> q[i] != q[j])
    && (forall i :: 0 <= i < |q| - 1 ==> q[i].next == q[i + 1])
    && (forall i :: 0 < i < |q| ==> q[i].prev == q[i - 1])
    && (q != [] ==> q[0].prev == null && q[|q| - 1].next == null)
  }

  /** The entries that stay, by their old positions. */
  lemma RemovedEntries<T>(o: seq<T>, k: nat)
    requires k < |o|
    ensures forall i :: 0 <= i < |o| - 1 ==> RemoveAt(o, k)[i] == o[if i < k then i else i + 1]
  {
  }

  class Queue {
    var head: Sudog?
    var tail: Sudog?
    ghost var nodes: seq<Sudog>

    ghost predicate Valid()
      reads this, nodes
    {
      && Linked(nodes)
      && (if nodes == [] then head == null && tail == null else head == nodes[0] && tail == nodes[|nodes| - 1])
    }

    constructor ()
      ensures Valid() && nodes == []
    {
      head, tail := null, null;
      nodes := [];
    }

    method IsEmpty() returns (b: bool)
      requires Valid()
      ensures b <==> nodes == []
    {
      b := head == null;
    }

    method PushBack(sg: Sudog)
      requires Valid() && sg !in nodes
      modifies this, sg, nodes
      ensures Valid() && nodes == old(nodes) + [sg]
    {
      ghost var o := nodes;
      sg.next := null;
      sg.prev := tail;
      if tail == null {
        head := sg;
      } else {
        tail.next := sg;
      }
      tail := sg;
      nodes := nodes + [sg];
      assert forall i :: 0 <= i < |o| ==> nodes[i] == o[i];
    }

    method PopFront() returns (h: Sudog?)
      requires Valid()
      modifies this, nodes
      ensures Valid()
      ensures old(nodes) == [] ==> h == null && nodes == []
      ensures old(nodes) != [] ==> h == old(nodes)[0] && nodes == old(nodes)[1..] && h.next == null && h.prev == null
    {
      if head == null {
        return null;
      }
      h := head;
      ghost var o := nodes;
      assert |o| > 1 ==> h.next == o[1];
      head := h.next;
      if head == null {
        tail := null;
      } else {
        head.prev := null;
      }
      h.next := null;
      h.prev := null;
      nodes := nodes[1..];
      assert forall i :: 0 <= i < |nodes| ==> nodes[i] == o[i + 1];
    }

    /** Takes `sg`, which is entry `k`, out of the middle of the queue. */
    method Unlink(sg: Sudog, ghost k: nat)
      requires Valid() && k < |nodes| && nodes[k] == sg
      modifies this, nodes
      ensures Valid() && nodes == RemoveAt(old(nodes), k) && sg.next == null && sg.prev == null
    {
      var prev, next := sg.prev, sg.next;
      ghost var o := nodes;
      assert prev == (if k > 0 then o[k - 1] else null);
      assert next == (if k + 1 < |o| then o[k + 1] else null);
      if prev == null {
        head := next;
      } else {
        prev.next := next;
      }
      if next == null {
        tail := prev;
      } else {
        next.prev := prev;
      }
      sg.next := null;
      sg.prev := null;
      nodes := RemoveAt(nodes, k);
      RemovedEntries(o, k);
    }

    /** The search by which pass 3 of a `select!` tells a loser from the winner: true, and
        unlinked, exactly if `sg` was still queued. */
    method Cancel(sg: Sudog) returns (found: bool)
      requires Valid()
      modifies this, nodes
      ensures Valid()
      ensures found <==> sg in old(nodes)
      ensures !found ==> nodes == old(nodes)
      ensures found ==> exists k :: 0 <= k < |old(nodes)| && old(nodes)[k] == sg && nodes == RemoveAt(old(nodes), k)
    {
      var cur := head;
      ghost var k := 0;
      while cur != null
        invariant Valid() && nodes == old(nodes)
        invariant 0 <= k <= |nodes|
        invariant if k < |nodes| then cur == nodes[k] else cur == null
        invariant sg !in nodes[..k]
        decreases |nodes| - k
      {
        if cur == sg {
          Unlink(sg, k);
          return true;
        }
        cur := cur.next;
        k := k + 1;
      }
      found := false;
    }
  }
}
