/**
  The doubly-linked list macros (LIST_*) of bsdqueue.h: the head knows only the first entry.
 */
module ListQueue {

  import opened Links

  class ListQueue {
    const head: Link
    ghost var nodes: seq<Link>       // the head, then the entries

    ghost predicate Valid()
      reads this, nodes
    {
      Linked(ListKind, nodes) && nodes[0] == head
    }

    ghost function Entries(): seq<Link>
      requires |nodes| >= 1
      reads this
    {
      nodes[1..]
    }

    /** LIST_INIT */
    constructor ()
      ensures Valid() && Entries() == [] && fresh(head)
    {
      head := new Link();
      new;
      head.next := null;
      nodes := [head];
    }

    method InsertAfter(listelm: Link, elm: Link, ghost k: nat)
      requires Valid() && elm !in nodes
      requires k < |Entries()| && Entries()[k] == listelm
      modifies this, nodes, elm
      ensures Valid() && Entries() == With(old(Entries()), k + 1, elm)
    {
      hide Linked, Chain, Distinct, Nexts, Prevs, NextIs, PrevIs, NextAt, PrevAt, NextOf, PrevOf, With;
      ghost var ns, all := nodes, nodes + [elm];
      ghost var next, prev := Nexts(all), Prevs(all);
      Captured(ListKind, ns, all);
      Around(ListKind, ns, next, prev, k + 1);
      WithEnds(ns, k + 2, elm);
      Inserted(ListKind, ns, next, prev, k + 2, elm);
      ghost var before, after := ns[k + 1], next[ns[k + 1]];
      ghost var next': Pointers := next[elm := after][before := elm];
      ghost var prev': Pointers := Back(ListKind, prev[elm := before], after, head, elm);
      elm.next := listelm.next;
      if elm.next != null {
        listelm.next.prev := elm;
      }
      listelm.next := elm;
      elm.prev := listelm;
      nodes := With(ns, k + 2, elm);
      Restored(ListKind, nodes, next', prev');
    }

    method InsertBefore(listelm: Link, elm: Link, ghost k: nat)
      requires Valid() && elm !in nodes
      requires k < |Entries()| && Entries()[k] == listelm
      modifies this, nodes, elm
      ensures Valid() && Entries() == With(old(Entries()), k, elm)
    {
      hide Linked, Chain, Distinct, Nexts, Prevs, NextIs, PrevIs, NextAt, PrevAt, NextOf, PrevOf, With;
      ghost var ns, all := nodes, nodes + [elm];
      ghost var next, prev := Nexts(all), Prevs(all);
      Captured(ListKind, ns, all);
      Around(ListKind, ns, next, prev, k);
      Around(ListKind, ns, next, prev, k + 1);
      WithEnds(ns, k + 1, elm);
      Inserted(ListKind, ns, next, prev, k + 1, elm);
      ghost var before, after := ns[k], next[ns[k]];
      ghost var next': Pointers := next[elm := after][before := elm];
      ghost var prev': Pointers := Back(ListKind, prev[elm := before], after, head, elm);
      elm.prev := listelm.prev;
      elm.next := listelm;
      listelm.prev.next := elm;
      listelm.prev := elm;
      nodes := With(ns, k + 1, elm);
      Restored(ListKind, nodes, next', prev');
    }

    method InsertHead(elm: Link)
      requires Valid() && elm !in nodes
      modifies this, nodes, elm
      ensures Valid() && Entries() == [elm] + old(Entries())
    {
      hide Linked, Chain, Distinct, Nexts, Prevs, NextIs, PrevIs, NextAt, PrevAt, NextOf, PrevOf, With;
      ghost var ns, all := nodes, nodes + [elm];
      ghost var next, prev := Nexts(all), Prevs(all);
      Captured(ListKind, ns, all);
      Around(ListKind, ns, next, prev, 0);
      WithEnds(ns, 1, elm);
      WithFirst(ns, elm);
      Inserted(ListKind, ns, next, prev, 1, elm);
      ghost var before, after := ns[0], next[ns[0]];
      ghost var next': Pointers := next[elm := after][before := elm];
      ghost var prev': Pointers := Back(ListKind, prev[elm := before], after, head, elm);
      elm.next := head.next;
      if elm.next != null {
        head.next.prev := elm;
      }
      head.next := elm;
      elm.prev := head;
      nodes := With(ns, 1, elm);
      Restored(ListKind, nodes, next', prev');
    }

    method Remove(elm: Link, ghost k: nat)
      requires Valid()
      requires k < |Entries()| && Entries()[k] == elm
      modifies this, nodes
      ensures Valid() && Entries() == Without(old(Entries()), k)
    {
      hide Linked, Chain, Distinct, Nexts, Prevs, NextIs, PrevIs, NextAt, PrevAt, NextOf, PrevOf, Without;
      ghost var ns, all := nodes, nodes;
      ghost var next, prev := Nexts(all), Prevs(all);
      Captured(ListKind, ns, all);
      Around(ListKind, ns, next, prev, k + 1);
      WithoutEnds(ns, k + 1);
      Unlinked(ListKind, ns, next, prev, k + 1);
      ghost var before, after := ns[k], next[ns[k + 1]];
      ghost var next': Pointers := next[before := after];
      ghost var prev': Pointers := Back(ListKind, prev, after, head, before);
      if elm.next != null {
        elm.next.prev := elm.prev;
      }
      elm.prev.next := elm.next;
      nodes := Without(ns, k + 1);
      Restored(ListKind, nodes, next', prev');
    }

    method Replace(elm: Link, elm2: Link, ghost k: nat)
      requires Valid() && elm2 !in nodes
      requires k < |Entries()| && Entries()[k] == elm
      modifies this, nodes, elm2
      ensures Valid() && Entries() == old(Entries())[k := elm2]
    {
      hide Linked, Chain, Distinct, Nexts, Prevs, NextIs, PrevIs, NextAt, PrevAt, NextOf, PrevOf, Exchanged;
      ghost var ns, all := nodes, nodes + [elm2];
      ghost var next, prev := Nexts(all), Prevs(all);
      Captured(ListKind, ns, all);
      Apart(ns, k + 1);
      Around(ListKind, ns, next, prev, k + 1);
      ExchangedEnds(ns, k + 1, elm2);
      Replaced(ListKind, ns, next, prev, k + 1, elm2);
      ghost var before, after := ns[k], next[ns[k + 1]];
      ghost var next': Pointers := next[elm2 := after][before := elm2];
      ghost var prev': Pointers := Back(ListKind, prev[elm2 := before], after, head, elm2);
      elm2.next := elm.next;
      if elm2.next != null {
        elm2.next.prev := elm2;
      }
      elm2.prev := elm.prev;
      elm2.prev.next := elm2;
      nodes := Exchanged(ns, k + 1, elm2);
      Restored(ListKind, nodes, next', prev');
    }

    /** LIST_FOREACH */
    method Traverse() returns (seen: seq<Link>)
      requires Valid()
      ensures seen == Entries()
    {
      seen := [];
      assert NextAt(ListKind, nodes, 0);
      var x := head.next;
      while x != null
        invariant |seen| < |nodes| && seen == nodes[1..|seen| + 1]
        invariant x == if |seen| + 1 < |nodes| then nodes[|seen| + 1] else null
        decreases |nodes| - |seen|
      {
        assert NextAt(ListKind, nodes, |seen| + 1);
        seen := seen + [x];
        x := x.next;
      }
    }
  }
}
