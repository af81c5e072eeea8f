/**
  The links of the queues of bsdqueue.h, and what linking them up means.

  A queue head and an entry both hold a next and a back pointer, so a head is a link
  like the entries. The back pointer of a list or tail queue entry is the address of
  the next field before it; here it is the link that holds that field.

  An update is reasoned about on maps from links to their pointers: a method keeps the
  maps in step with the objects, and the lemmas here are about the maps alone.
 */
module Links {

  class Link {
    var next: Link?
    var prev: Link?

    constructor ()
      ensures next == null && prev == null
    {
      next, prev := null, null;
    }
  }

  type Pointers = map<Link, Link?>

  /** LIST: the head has no back pointer. TAILQ: its back pointer is the last link. CIRCLEQ:
      besides, the last link leads on to the head. */
  datatype Kind = ListKind | TailKind | CircleKind

  ghost predicate Distinct(ns: seq<Link>) {
    forall i, j :: 0 <= i < j < |ns| ==> ns[i] != ns[j]
  }

  /** Where the link at position `i` leads; position 0 is the head. */
  ghost function NextOf(kind: Kind, ns: seq<Link>, i: nat): Link?
    requires i < |ns|
  {
    if i + 1 < |ns| then ns[i + 1] else if kind.CircleKind? then ns[0] else null
  }

  ghost function PrevOf(ns: seq<Link>, i: nat): Link
    requires i < |ns|
  {
    if i == 0 then ns[|ns| - 1] else ns[i - 1]
  }

  predicate HasBack(kind: Kind, i: nat) {
    i > 0 || !kind.ListKind?
  }

  ghost predicate NextAt(kind: Kind, ns: seq<Link>, i: nat)
    requires i < |ns|
    reads ns
  {
    ns[i].next == NextOf(kind, ns, i)
  }

  ghost predicate PrevAt(kind: Kind, ns: seq<Link>, i: nat)
    requires i < |ns|
    reads ns
  {
    HasBack(kind, i) ==> ns[i].prev == PrevOf(ns, i)
  }

  ghost predicate Linked(kind: Kind, ns: seq<Link>)
    reads ns
  {
    && |ns| >= 1 && Distinct(ns)
    && (forall i :: 0 <= i < |ns| ==> NextAt(kind, ns, i))
    && (forall i :: 0 <= i < |ns| ==> PrevAt(kind, ns, i))
  }

  ghost predicate NextIs(kind: Kind, ns: seq<Link>, next: Pointers, i: nat)
    requires i < |ns|
  {
    ns[i] in next && next[ns[i]] == NextOf(kind, ns, i)
  }

  ghost predicate PrevIs(kind: Kind, ns: seq<Link>, prev: Pointers, i: nat)
    requires i < |ns|
  {
    HasBack(kind, i) ==> ns[i] in prev && prev[ns[i]] == PrevOf(ns, i)
  }

  /** The same of pointers that are kept in maps. */
  ghost predicate Chain(kind: Kind, ns: seq<Link>, next: Pointers, prev: Pointers) {
    && |ns| >= 1 && Distinct(ns)
    && (forall i :: 0 <= i < |ns| ==> NextIs(kind, ns, next, i))
    && (forall i :: 0 <= i < |ns| ==> PrevIs(kind, ns, prev, i))
  }

  /** The maps say what the objects say. */
  ghost predicate Holds(next: Pointers, prev: Pointers)
    reads next.Keys, prev.Keys
  {
    && (forall x :: x in next ==> x.next == next[x])
    && (forall x :: x in prev ==> x.prev == prev[x])
  }

  ghost function Nexts(ns: seq<Link>): Pointers
    reads ns
  {
    map x: Link | x in ns :: x.next
  }

  ghost function Prevs(ns: seq<Link>): Pointers
    reads ns
  {
    map x: Link | x in ns :: x.prev
  }

  /** Before an update: the maps of the links, and of a link that is to come. */
  lemma Captured(kind: Kind, ns: seq<Link>, all: seq<Link>)
    requires Linked(kind, ns) && ns <= all
    ensures Holds(Nexts(all), Prevs(all)) && Chain(kind, ns, Nexts(all), Prevs(all)) && Distinct(ns)
  {
    forall i | 0 <= i < |ns| ensures NextIs(kind, ns, Nexts(all), i) && PrevIs(kind, ns, Prevs(all), i) {
      assert ns[i] == all[i] && NextAt(kind, ns, i) && PrevAt(kind, ns, i);
    }
  }

  /** After an update. */
  lemma Restored(kind: Kind, ns: seq<Link>, next: Pointers, prev: Pointers)
    requires Chain(kind, ns, next, prev) && Holds(next, prev)
    ensures Linked(kind, ns)
  {
    forall i | 0 <= i < |ns| ensures NextAt(kind, ns, i) && PrevAt(kind, ns, i) {
      assert ns[i] in ns && NextIs(kind, ns, next, i) && PrevIs(kind, ns, prev, i);
    }
  }

  /** The pointers next to a position. */
  lemma Around(kind: Kind, ns: seq<Link>, next: Pointers, prev: Pointers, k: nat)
    requires Chain(kind, ns, next, prev) && k < |ns|
    ensures ns[k] in next && (next[ns[k]] == null ==> !kind.CircleKind?)
    ensures next[ns[k]] == if k + 1 < |ns| then ns[k + 1] else if kind.CircleKind? then ns[0] else null
    ensures k > 0 ==> ns[k] in prev && prev[ns[k]] == ns[k - 1]
    ensures k == 0 && !kind.ListKind? ==> ns[k] in prev && prev[ns[k]] == ns[|ns| - 1]
  {
    assert NextIs(kind, ns, next, k) && PrevIs(kind, ns, prev, k);
  }

  // ---- Edits of the sequence ----

  /** The queue with `x` at position `k`. */
  ghost function With(ns: seq<Link>, k: nat, x: Link): seq<Link>
    requires k <= |ns|
  {
    ns[..k] + [x] + ns[k..]
  }

  /** The queue without its position `k`. */
  ghost function Without(ns: seq<Link>, k: nat): seq<Link>
    requires k < |ns|
  {
    ns[..k] + ns[k + 1..]
  }

  /** The queue with `x` in place of its position `k`. */
  ghost function Exchanged(ns: seq<Link>, k: nat, x: Link): seq<Link>
    requires k < |ns|
  {
    ns[k := x]
  }

  lemma ExchangedEnds(ns: seq<Link>, k: nat, x: Link)
    requires 1 <= k < |ns|
    ensures var ms := Exchanged(ns, k, x);
      && |ms| == |ns| && ms[0] == ns[0] && ms[1..] == ns[1..][k - 1 := x]
  {
  }

  /** The position that comes after a new or removed one: the head after the last. */
  ghost function After(ns: seq<Link>, k: nat): nat {
    if k < |ns| then k else 0
  }

  lemma DistinctAt(ns: seq<Link>, k: nat)
    requires k < |ns| && Distinct(ns)
    ensures forall j :: 0 <= j < |ns| ==> (ns[j] == ns[k] <==> j == k)
  {
  }

  lemma Apart(ns: seq<Link>, k: nat)
    requires 1 <= k < |ns| && Distinct(ns)
    ensures ns[0] != ns[k] && (k + 1 < |ns| ==> ns[k + 1] != ns[k])
  {
  }

  lemma WithEnds(ns: seq<Link>, k: nat, x: Link)
    requires 1 <= k <= |ns|
    ensures var ms := With(ns, k, x);
      && |ms| == |ns| + 1 && ms[0] == ns[0] && ms[1..] == With(ns[1..], k - 1, x)
  {
  }

  lemma WithFirst(ns: seq<Link>, x: Link)
    requires ns != []
    ensures With(ns[1..], 0, x) == [x] + ns[1..]
  {
  }

  lemma WithLast(ns: seq<Link>, x: Link)
    requires ns != []
    ensures With(ns[1..], |ns| - 1, x) == ns[1..] + [x]
  {
  }

  lemma WithAt(ns: seq<Link>, k: nat, x: Link)
    requires 1 <= k <= |ns|
    ensures var ms := With(ns, k, x);
      && |ms| == |ns| + 1 && ms[k] == x
      && (forall i :: 0 <= i < k ==> ms[i] == ns[i]) && (forall i :: k < i <= |ns| ==> ms[i] == ns[i - 1])
      && (Distinct(ns) && x !in ns ==> Distinct(ms))
  {
  }

  lemma WithoutEnds(ns: seq<Link>, k: nat)
    requires 1 <= k < |ns|
    ensures var ms := Without(ns, k);
      && |ms| == |ns| - 1 && ms[0] == ns[0] && ms[1..] == Without(ns[1..], k - 1)
  {
    var ms := Without(ns, k);
    assert ms[1..] == ns[1..k] + ns[k + 1..] && Without(ns[1..], k - 1) == ns[1..k] + ns[k + 1..];
  }

  lemma WithoutAt(ns: seq<Link>, k: nat)
    requires 1 <= k < |ns|
    ensures var ms := Without(ns, k);
      && |ms| == |ns| - 1
      && (forall i :: 0 <= i < k ==> ms[i] == ns[i]) && (forall i :: k <= i < |ms| ==> ms[i] == ns[i + 1])
      && (Distinct(ns) ==> Distinct(ms))
  {
  }

  // ---- Edits of the pointers ----

  /** The link `n` is led to from `x`; with no link to come, the head of a tail queue is. */
  ghost function Back(kind: Kind, prev: Pointers, n: Link?, head: Link, x: Link): Pointers {
    if n != null then prev[n := x] else if kind.TailKind? then prev[head := x] else prev
  }

  lemma BackAt(kind: Kind, prev: Pointers, ns: seq<Link>, k: nat, x: Link)
    requires k < |ns|
    ensures var i := After(ns, k + 1);
      Back(kind, prev, NextOf(kind, ns, k), ns[0], x) == if HasBack(kind, i) then prev[ns[i] := x] else prev
  {
  }

  lemma InsertedNext(kind: Kind, ns: seq<Link>, next: Pointers, k: nat, x: Link, i: nat)
    requires 1 <= k <= |ns| && x !in ns && Distinct(ns) && i <= |ns|
    requires i != k ==> NextIs(kind, ns, next, if i < k then i else i - 1)
    ensures |With(ns, k, x)| == |ns| + 1
    ensures NextIs(kind, With(ns, k, x), next[x := NextOf(kind, ns, k - 1)][ns[k - 1] := x], i)
  {
    hide With, Distinct;
    WithAt(ns, k, x);
    DistinctAt(ns, k - 1);
  }

  lemma InsertedPrev(kind: Kind, ns: seq<Link>, prev: Pointers, k: nat, x: Link, i: nat)
    requires 1 <= k <= |ns| && x !in ns && Distinct(ns) && i <= |ns|
    requires i != k ==> PrevIs(kind, ns, prev, if i < k then i else i - 1)
    ensures |With(ns, k, x)| == |ns| + 1
    ensures PrevIs(kind, With(ns, k, x), Back(kind, prev[x := ns[k - 1]], NextOf(kind, ns, k - 1), ns[0], x), i)
  {
    hide With, Distinct, Back;
    WithAt(ns, k, x);
    DistinctAt(ns, After(ns, k));
    BackAt(kind, prev[x := ns[k - 1]], ns, k - 1, x);
  }

  /** A link put in at position `k`: the one before leads to it and the one after points back to it. */
  lemma Inserted(kind: Kind, ns: seq<Link>, next: Pointers, prev: Pointers, k: nat, x: Link)
    requires 1 <= k <= |ns| && x !in ns && Chain(kind, ns, next, prev) && ns[k - 1] in next
    ensures var before, after := ns[k - 1], next[ns[k - 1]];
      Chain(kind, With(ns, k, x), next[x := after][before := x], Back(kind, prev[x := before], after, ns[0], x))
  {
    assert NextIs(kind, ns, next, k - 1);
    var next' := next[x := NextOf(kind, ns, k - 1)][ns[k - 1] := x];
    var prev' := Back(kind, prev[x := ns[k - 1]], NextOf(kind, ns, k - 1), ns[0], x);
    hide With, Distinct, NextIs, PrevIs, Back;
    WithAt(ns, k, x);
    forall i | 0 <= i <= |ns| ensures NextIs(kind, With(ns, k, x), next', i) && PrevIs(kind, With(ns, k, x), prev', i) {
      InsertedNext(kind, ns, next, k, x, i);
      InsertedPrev(kind, ns, prev, k, x, i);
    }
  }

  lemma UnlinkedNext(kind: Kind, ns: seq<Link>, next: Pointers, k: nat, i: nat)
    requires 1 <= k < |ns| && Distinct(ns) && i < |ns| - 1
    requires NextIs(kind, ns, next, if i < k then i else i + 1)
    ensures |Without(ns, k)| == |ns| - 1
    ensures NextIs(kind, Without(ns, k), next[ns[k - 1] := NextOf(kind, ns, k)], i)
  {
    hide Without, Distinct;
    WithoutAt(ns, k);
    DistinctAt(ns, k - 1);
  }

  lemma UnlinkedPrev(kind: Kind, ns: seq<Link>, prev: Pointers, k: nat, i: nat)
    requires 1 <= k < |ns| && Distinct(ns) && i < |ns| - 1
    requires PrevIs(kind, ns, prev, if i < k then i else i + 1)
    ensures |Without(ns, k)| == |ns| - 1
    ensures PrevIs(kind, Without(ns, k), Back(kind, prev, NextOf(kind, ns, k), ns[0], ns[k - 1]), i)
  {
    hide Without, Distinct, Back;
    WithoutAt(ns, k);
    DistinctAt(ns, After(ns, k + 1));
    BackAt(kind, prev, ns, k, ns[k - 1]);
  }

  /** The neighbours of position `k` point past it. */
  lemma Unlinked(kind: Kind, ns: seq<Link>, next: Pointers, prev: Pointers, k: nat)
    requires 1 <= k < |ns| && Chain(kind, ns, next, prev) && ns[k] in next
    ensures var before, after := ns[k - 1], next[ns[k]];
      Chain(kind, Without(ns, k), next[before := after], Back(kind, prev, after, ns[0], before))
  {
    assert NextIs(kind, ns, next, k);
    var next' := next[ns[k - 1] := NextOf(kind, ns, k)];
    var prev' := Back(kind, prev, NextOf(kind, ns, k), ns[0], ns[k - 1]);
    hide Without, Distinct, NextIs, PrevIs, Back;
    WithoutAt(ns, k);
    forall i | 0 <= i < |ns| - 1 ensures NextIs(kind, Without(ns, k), next', i) && PrevIs(kind, Without(ns, k), prev', i) {
      UnlinkedNext(kind, ns, next, k, i);
      UnlinkedPrev(kind, ns, prev, k, i);
    }
  }

  lemma ReplacedNext(kind: Kind, ns: seq<Link>, next: Pointers, k: nat, x: Link, i: nat)
    requires 1 <= k < |ns| && x !in ns && Distinct(ns) && i < |ns| && NextIs(kind, ns, next, i)
    ensures NextIs(kind, Exchanged(ns, k, x), next[x := NextOf(kind, ns, k)][ns[k - 1] := x], i)
  {
    hide Distinct;
    DistinctAt(ns, k - 1);
  }

  lemma ReplacedPrev(kind: Kind, ns: seq<Link>, prev: Pointers, k: nat, x: Link, i: nat)
    requires 1 <= k < |ns| && x !in ns && Distinct(ns) && i < |ns| && PrevIs(kind, ns, prev, i)
    ensures PrevIs(kind, Exchanged(ns, k, x), Back(kind, prev[x := ns[k - 1]], NextOf(kind, ns, k), ns[0], x), i)
  {
    hide Distinct, Back;
    DistinctAt(ns, After(ns, k + 1));
    BackAt(kind, prev[x := ns[k - 1]], ns, k, x);
  }

  /** Another link takes position `k`. */
  lemma Replaced(kind: Kind, ns: seq<Link>, next: Pointers, prev: Pointers, k: nat, x: Link)
    requires 1 <= k < |ns| && x !in ns && Chain(kind, ns, next, prev) && ns[k] in next
    ensures var before, after := ns[k - 1], next[ns[k]];
      Chain(kind, Exchanged(ns, k, x), next[x := after][before := x], Back(kind, prev[x := before], after, ns[0], x))
  {
    assert NextIs(kind, ns, next, k);
    var ms := Exchanged(ns, k, x);
    var next' := next[x := NextOf(kind, ns, k)][ns[k - 1] := x];
    var prev' := Back(kind, prev[x := ns[k - 1]], NextOf(kind, ns, k), ns[0], x);
    hide NextIs, PrevIs, Back;
    forall i | 0 <= i < |ms| ensures NextIs(kind, ms, next', i) && PrevIs(kind, ms, prev', i) {
      assert NextIs(kind, ns, next, i) && PrevIs(kind, ns, prev, i);
      ReplacedNext(kind, ns, next, k, x, i);
      ReplacedPrev(kind, ns, prev, k, x, i);
    }
  }
}
