/**
  The tail queue macros (TAILQ_*) of bsdqueue.h.
 */
module TailQueue {

  import opened Links

  class TailQueue {
    const head: Link
    ghost var nodes: seq<Link>       // the head, then the entries

    ghost predicate Valid()
      reads this, nodes
    {
      Linked(TailKind, nodes) && nodes[0] == head
    }

    ghost function Entries(): seq<Link>
      requires |nodes| >= 1
      reads this
    {
      nodes[1..]
    }

    /** TAILQ_INIT */
    constructor ()
      ensures Valid() && Entries() == [] && fresh(head)
    {
      head := new Link();
      new;
      head.next := null;
      head.prev := head;
      nodes := [head];
    }

    method InsertHead(elm: Link)
      requires Valid() && elm !in nodes
      modifies this, nodes, elm
      ensures Valid() && Entries() == [elm] + old(Entries())
    {
      hide Linked, Chain, Distinct, Nexts, Prevs, NextIs, PrevIs, NextAt, PrevAt, NextOf, PrevOf, With;
      ghost var ns, all := nodes, nodes + [elm];
      ghost var next, prev := Nexts(all), Prevs(all);
      Captured(TailKind, ns, all);
      Around(TailKind, ns, next, prev, 0);
      WithEnds(ns, 1, elm);
      WithFirst(ns, elm);
      Inserted(TailKind, ns, next, prev, 1, elm);
      ghost var before, after := ns[0], next[ns[0]];
      ghost var next': Pointers := next[elm := after][before := elm];
      ghost var prev': Pointers := Back(TailKind, prev[elm := before], after, head, elm);
      elm.next := head.next;
      if elm.next != null {
        head.next.prev := elm;
      } else {
        head.prev := elm;
      }
      head.next := elm;
      elm.prev := head;
      nodes := With(ns, 1, elm);
      Restored(TailKind, nodes, next', prev');
    }

    method InsertTail(elm: Link)
      requires Valid() && elm !in nodes
      modifies this, nodes, elm
      ensures Valid() && Entries() == old(Entries()) + [elm]
    {
      hide Linked, Chain, Distinct, Nexts, Prevs, NextIs, PrevIs, NextAt, PrevAt, NextOf, PrevOf, With;
      ghost var ns, all := nodes, nodes + [elm];
      ghost var next, prev := Nexts(all), Prevs(all);
      Captured(TailKind, ns, all);
      Around(TailKind, ns, next, prev, 0);
      Around(TailKind, ns, next, prev, |ns| - 1);
      WithEnds(ns, |ns|, elm);
      WithLast(ns, elm);
      Inserted(TailKind, ns, next, prev, |ns|, elm);
      ghost var before, after := ns[|ns| - 1], next[ns[|ns| - 1]];
      ghost var next': Pointers := next[elm := after][before := elm];
      ghost var prev': Pointers := Back(TailKind, prev[elm := before], after, head, elm);
      elm.next := null;
      elm.prev := head.prev;
      head.prev.next := elm;
      head.prev := elm;
      nodes := With(ns, |ns|, elm);
      Restored(TailKind, nodes, next', prev');
    }

    method InsertAfter(listelm: Link, elm: Link, ghost k: nat)
      requires Valid() && elm !in nodes
      requires k < |Entries()| && Entries()[k] == listelm
      modifies this, nodes, elm
      ensures Valid() && Entries() == With(old(Entries()), k + 1, elm)
    {
      hide Linked, Chain, Distinct, Nexts, Prevs, NextIs, PrevIs, NextAt, PrevAt, NextOf, PrevOf, With;
      ghost var ns, all := nodes, nodes + [elm];
      ghost var next, prev := Nexts(all), Prevs(all);
      Captured(TailKind, ns, all);
      Around(TailKind, ns, next, prev, k + 1);
      WithEnds(ns, k + 2, elm);
      Inserted(TailKind, ns, next, prev, k + 2, elm);
      ghost var before, after := ns[k + 1], next[ns[k + 1]];
      ghost var next': Pointers := next[elm := after][before := elm];
      ghost var prev': Pointers := Back(TailKind, prev[elm := before], after, head, elm);
      elm.next := listelm.next;
      if elm.next != null {
        elm.next.prev := elm;
      } else {
        head.prev := elm;
      }
      listelm.next := elm;
      elm.prev := listelm;
      nodes := With(ns, k + 2, elm);
      Restored(TailKind, nodes, next', prev');
    }

    method InsertBefore(listelm: Link, elm: Link, ghost k: nat)
      requires Valid() && elm !in nodes
      requires k < |Entries()| && Entries()[k] == listelm
      modifies this, nodes, elm
      ensures Valid() && Entries() == With(old(Entries()), k, elm)
    {
      hide Linked, Chain, Distinct, Nexts, Prevs, NextIs, PrevIs, NextAt, PrevAt, NextOf, PrevOf, With;
      ghost var ns, all := nodes, nodes + [elm];
      ghost var next, prev := Nexts(all), Prevs(all);
      Captured(TailKind, ns, all);
      Around(TailKind, ns, next, prev, k);
      Around(TailKind, ns, next, prev, k + 1);
      WithEnds(ns, k + 1, elm);
      Inserted(TailKind, ns, next, prev, k + 1, elm);
      ghost var before, after := ns[k], next[ns[k]];
      ghost var next': Pointers := next[elm := after][before := elm];
      ghost var prev': Pointers := Back(TailKind, prev[elm := before], after, head, elm);
      elm.prev := listelm.prev;
      elm.next := listelm;
      listelm.prev.next := elm;
      listelm.prev := elm;
      nodes := With(ns, k + 1, elm);
      Restored(TailKind, nodes, next', prev');
    }

    method Remove(elm: Link, ghost k: nat)
      requires Valid()
      requires k < |Entries()| && Entries()[k] == elm
      modifies this, nodes
      ensures Valid() && Entries() == Without(old(Entries()), k)
    {
      hide Linked, Chain, Distinct, Nexts, Prevs, NextIs, PrevIs, NextAt, PrevAt, NextOf, PrevOf, Without;
      ghost var ns, all := nodes, nodes;
      ghost var next, prev := Nexts(all), Prevs(all);
      Captured(TailKind, ns, all);
      Around(TailKind, ns, next, prev, k + 1);
      WithoutEnds(ns, k + 1);
      Unlinked(TailKind, ns, next, prev, k + 1);
      ghost var before, after := ns[k], next[ns[k + 1]];
      ghost var next': Pointers := next[before := after];
      ghost var prev': Pointers := Back(TailKind, prev, after, head, before);
      if elm.next != null {
        elm.next.prev := elm.prev;
      } else {
        head.prev := elm.prev;
      }
      elm.prev.next := elm.next;
      nodes := Without(ns, k + 1);
      Restored(TailKind, nodes, next', prev');
    }

    method Replace(elm: Link, elm2: Link, ghost k: nat)
      requires Valid() && elm2 !in nodes
      requires k < |Entries()| && Entries()[k] == elm
      modifies this, nodes, elm2
      ensures Valid() && Entries() == old(Entries())[k := elm2]
    {
      hide Linked, Chain, Distinct, Nexts, Prevs, NextIs, PrevIs, NextAt, PrevAt, NextOf, PrevOf, Exchanged;
      ghost var ns, all := nodes, nodes + [elm2];
      ghost var next, prev := Nexts(all), Prevs(all);
      Captured(TailKind, ns, all);
      Apart(ns, k + 1);
      Around(TailKind, ns, next, prev, k + 1);
      ExchangedEnds(ns, k + 1, elm2);
      Replaced(TailKind, ns, next, prev, k + 1, elm2);
      ghost var before, after := ns[k], next[ns[k + 1]];
      ghost var next': Pointers := next[elm2 := after][before := elm2];
      ghost var prev': Pointers := Back(TailKind, prev[elm2 := before], after, head, elm2);
      elm2.next := elm.next;
      if elm2.next != null {
        elm2.next.prev := elm2;
      } else {
        head.prev := elm2;
      }
      elm2.prev := elm.prev;
      elm2.prev.next := elm2;
      nodes := Exchanged(ns, k + 1, elm2);
      Restored(TailKind, nodes, next', prev');
    }

    /** TAILQ_LAST: back over two links and forward one. */
    method Last() returns (x: Link?)
      requires Valid()
      ensures x == if Entries() == [] then null else Entries()[|Entries()| - 1]
    {
      assert PrevAt(TailKind, nodes, 0) && PrevAt(TailKind, nodes, |nodes| - 1) && NextAt(TailKind, nodes, 0);
      assert |nodes| > 1 ==> NextAt(TailKind, nodes, |nodes| - 2);
      x := head.prev.prev.next;
    }

    /** TAILQ_PREV */
    method Prev(elm: Link, ghost k: nat) returns (x: Link?)
      requires Valid() && k < |Entries()| && Entries()[k] == elm
      ensures x == if k == 0 then null else Entries()[k - 1]
    {
      assert nodes[k + 1] == elm && PrevAt(TailKind, nodes, k + 1) && PrevAt(TailKind, nodes, k);
      assert k > 0 ==> NextAt(TailKind, nodes, k - 1);
      assert NextAt(TailKind, nodes, |nodes| - 1);
      x := elm.prev.prev.next;
    }

    /** TAILQ_FOREACH */
    method Traverse() returns (seen: seq<Link>)
      requires Valid()
      ensures seen == Entries()
    {
      seen := [];
      assert NextAt(TailKind, nodes, 0);
      var x := head.next;
      while x != null
        invariant |seen| < |nodes| && seen == nodes[1..|seen| + 1]
        invariant x == if |seen| + 1 < |nodes| then nodes[|seen| + 1] else null
        decreases |nodes| - |seen|
      {
        assert NextAt(TailKind, nodes, |seen| + 1);
        seen := seen + [x];
        x := x.next;
      }
    }

    /** TAILQ_FOREACH_REVERSE */
    method TraverseReverse() returns (seen: seq<Link>)
      requires Valid()
      ensures |seen| == |Entries()| && forall i :: 0 <= i < |seen| ==> seen[i] == Entries()[|seen| - 1 - i]
    {
      seen := [];
      var x := Last();
      while x != null
        invariant |seen| < |nodes|
        invariant forall i :: 0 <= i < |seen| ==> seen[i] == nodes[|nodes| - 1 - i]
        invariant x == if |seen| + 1 < |nodes| then nodes[|nodes| - 1 - |seen|] else null
        decreases |nodes| - |seen|
      {
        var y := Prev(x, |nodes| - 2 - |seen|);
        x, seen := y, seen + [x];
      }
    }
  }
}
