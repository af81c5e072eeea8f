/**
  The circular queue macros (CIRCLEQ_*) of bsdqueue.h. The head closes the ring in both
  directions, and its address marks the end of a traversal.
 */
module CircleQueue {

  import opened Links

  class CircleQueue {
    const head: Link
    ghost var nodes: seq<Link>       // the head, then the entries

    ghost predicate Valid()
      reads this, nodes
    {
      Linked(CircleKind, nodes) && nodes[0] == head
    }

    ghost function Entries(): seq<Link>
      requires |nodes| >= 1
      reads this
    {
      nodes[1..]
    }

    /** CIRCLEQ_INIT */
    constructor ()
      ensures Valid() && Entries() == [] && fresh(head)
    {
      head := new Link();
      new;
      head.next := head;
      head.prev := head;
      nodes := [head];
    }

    method InsertAfter(listelm: Link, elm: Link, ghost k: nat)
      requires Valid() && elm !in nodes
      requires k < |Entries()| && Entries()[k] == listelm
      modifies this, nodes, elm
      ensures Valid() && Entries() == With(old(Entries()), k + 1, elm)
    {
      hide Linked, Chain, Distinct, Nexts, Prevs, NextIs, PrevIs, NextAt, PrevAt, NextOf, PrevOf, With;
      ghost var ns, all := nodes, nodes + [elm];
      ghost var next, prev := Nexts(all), Prevs(all);
      Captured(CircleKind, ns, all);
      Around(CircleKind, ns, next, prev, k + 1);
      WithEnds(ns, k + 2, elm);
      Inserted(CircleKind, ns, next, prev, k + 2, elm);
      ghost var before, after := ns[k + 1], next[ns[k + 1]];
      ghost var next': Pointers := next[elm := after][before := elm];
      ghost var prev': Pointers := Back(CircleKind, prev[elm := before], after, head, elm);
      elm.next := listelm.next;
      elm.prev := listelm;
      if listelm.next == head {
        head.prev := elm;
      } else {
        listelm.next.prev := elm;
      }
      listelm.next := elm;
      nodes := With(ns, k + 2, elm);
      Restored(CircleKind, nodes, next', prev');
    }

    method InsertBefore(listelm: Link, elm: Link, ghost k: nat)
      requires Valid() && elm !in nodes
      requires k < |Entries()| && Entries()[k] == listelm
      modifies this, nodes, elm
      ensures Valid() && Entries() == With(old(Entries()), k, elm)
    {
      hide Linked, Chain, Distinct, Nexts, Prevs, NextIs, PrevIs, NextAt, PrevAt, NextOf, PrevOf, With;
      ghost var ns, all := nodes, nodes + [elm];
      ghost var next, prev := Nexts(all), Prevs(all);
      Captured(CircleKind, ns, all);
      Around(CircleKind, ns, next, prev, k);
      Around(CircleKind, ns, next, prev, k + 1);
      WithEnds(ns, k + 1, elm);
      Inserted(CircleKind, ns, next, prev, k + 1, elm);
      ghost var before, after := ns[k], next[ns[k]];
      ghost var next': Pointers := next[elm := after][before := elm];
      ghost var prev': Pointers := Back(CircleKind, prev[elm := before], after, head, elm);
      elm.next := listelm;
      elm.prev := listelm.prev;
      if listelm.prev == head {
        head.next := elm;
      } else {
        listelm.prev.next := elm;
      }
      listelm.prev := elm;
      nodes := With(ns, k + 1, elm);
      Restored(CircleKind, nodes, next', prev');
    }

    method InsertHead(elm: Link)
      requires Valid() && elm !in nodes
      modifies this, nodes, elm
      ensures Valid() && Entries() == [elm] + old(Entries())
    {
      hide Linked, Chain, Distinct, Nexts, Prevs, NextIs, PrevIs, NextAt, PrevAt, NextOf, PrevOf, With;
      ghost var ns, all := nodes, nodes + [elm];
      ghost var next, prev := Nexts(all), Prevs(all);
      Captured(CircleKind, ns, all);
      DistinctAt(ns, 0);
      Around(CircleKind, ns, next, prev, 0);
      WithEnds(ns, 1, elm);
      WithFirst(ns, elm);
      Inserted(CircleKind, ns, next, prev, 1, elm);
      ghost var before, after := ns[0], next[ns[0]];
      ghost var next': Pointers := next[elm := after][before := elm];
      ghost var prev': Pointers := Back(CircleKind, prev[elm := before], after, head, elm);
      elm.next := head.next;
      elm.prev := head;
      if head.prev == head {
        head.prev := elm;
      } else {
        head.next.prev := elm;
      }
      head.next := elm;
      nodes := With(ns, 1, elm);
      Restored(CircleKind, nodes, next', prev');
    }

    method InsertTail(elm: Link)
      requires Valid() && elm !in nodes
      modifies this, nodes, elm
      ensures Valid() && Entries() == old(Entries()) + [elm]
    {
      hide Linked, Chain, Distinct, Nexts, Prevs, NextIs, PrevIs, NextAt, PrevAt, NextOf, PrevOf, With;
      ghost var ns, all := nodes, nodes + [elm];
      ghost var next, prev := Nexts(all), Prevs(all);
      Captured(CircleKind, ns, all);
      DistinctAt(ns, 0);
      Around(CircleKind, ns, next, prev, 0);
      Around(CircleKind, ns, next, prev, |ns| - 1);
      WithEnds(ns, |ns|, elm);
      WithLast(ns, elm);
      Inserted(CircleKind, ns, next, prev, |ns|, elm);
      ghost var before, after := ns[|ns| - 1], next[ns[|ns| - 1]];
      ghost var next': Pointers := next[elm := after][before := elm];
      ghost var prev': Pointers := Back(CircleKind, prev[elm := before], after, head, elm);
      elm.next := head;
      elm.prev := head.prev;
      if head.next == head {
        head.next := elm;
      } else {
        head.prev.next := elm;
      }
      head.prev := elm;
      nodes := With(ns, |ns|, elm);
      Restored(CircleKind, nodes, next', prev');
    }

    method Remove(elm: Link, ghost k: nat)
      requires Valid()
      requires k < |Entries()| && Entries()[k] == elm
      modifies this, nodes
      ensures Valid() && Entries() == Without(old(Entries()), k)
    {
      hide Linked, Chain, Distinct, Nexts, Prevs, NextIs, PrevIs, NextAt, PrevAt, NextOf, PrevOf, Without;
      ghost var ns, all := nodes, nodes;
      ghost var next, prev := Nexts(all), Prevs(all);
      Captured(CircleKind, ns, all);
      Around(CircleKind, ns, next, prev, k + 1);
      WithoutEnds(ns, k + 1);
      Unlinked(CircleKind, ns, next, prev, k + 1);
      ghost var before, after := ns[k], next[ns[k + 1]];
      ghost var next': Pointers := next[before := after];
      ghost var prev': Pointers := Back(CircleKind, prev, after, head, before);
      if elm.next == head {
        head.prev := elm.prev;
      } else {
        elm.next.prev := elm.prev;
      }
      if elm.prev == head {
        head.next := elm.next;
      } else {
        elm.prev.next := elm.next;
      }
      nodes := Without(ns, k + 1);
      Restored(CircleKind, nodes, next', prev');
    }

    /** CIRCLEQ_FOREACH */
    method Traverse() returns (seen: seq<Link>)
      requires Valid()
      ensures seen == Entries()
    {
      seen := [];
      assert NextAt(CircleKind, nodes, 0);
      var x := head.next;
      while x != head
        invariant |seen| < |nodes| && seen == nodes[1..|seen| + 1]
        invariant x == if |seen| + 1 < |nodes| then nodes[|seen| + 1] else head
        decreases |nodes| - |seen|
      {
        assert NextAt(CircleKind, nodes, |seen| + 1);
        seen := seen + [x];
        x := x.next;
      }
    }

    /** CIRCLEQ_FOREACH_REVERSE */
    method TraverseReverse() returns (seen: seq<Link>)
      requires Valid()
      ensures |seen| == |Entries()| && forall i :: 0 <= i < |seen| ==> seen[i] == Entries()[|seen| - 1 - i]
    {
      seen := [];
      assert PrevAt(CircleKind, nodes, 0);
      var x := head.prev;
      while x != head
        invariant |seen| < |nodes| && x == nodes[|nodes| - 1 - |seen|]
        invariant forall i :: 0 <= i < |seen| ==> seen[i] == nodes[|nodes| - 1 - i]
        decreases |nodes| - |seen|
      {
        assert PrevAt(CircleKind, nodes, |nodes| - 1 - |seen|);
        x, seen := x.prev, seen + [x];
      }
    }
  }
}
