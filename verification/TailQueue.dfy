/** Tail queues. The macros treat a queue's head (first element, address of the last link) and an
    element's entry (next element, address of the previous link) as one layout; so does this model:
    both are a Link, and the address of a link is the Link that holds it. */
module TailQueue {
  import opened Basics

  class Link {
    /** tqh_first, or tqe_next. */
    var next: Link?
    /** tqh_last, or tqe_prev. */
    var prev: Link
    /** For the head of a queue: itself and the elements, in order. */
    ghost var cells: seq<Link>

    /** TAILQ_INIT. */
    constructor ()
      ensures Queue() && Elems() == []
    {
      next, prev, cells := null, this, [this];
    }

    ghost function Elems(): seq<Link>
      reads this`cells
    {
      if cells == [] then [] else cells[1..]
    }

    /** The links are in order, and the head is where the first starts and the last ends. */
    ghost predicate Queue()
      reads this`cells, cells`next, cells`prev
    {
      cells != [] && cells[0] == this && Distinct(cells) && Linked(cells)
    }

    /** TAILQ_EMPTY. */
    predicate IsEmpty()
      reads this`next
    {
      next == null
    }

    /** TAILQ_INSERT_HEAD. */
    method InsertHead(elm: Link)
      requires Queue() && elm !in cells
      modifies this`cells, cells`next, cells`prev, elm`next, elm`prev
      ensures Queue() && Elems() == [elm] + old(Elems())
    {
      ghost var c := cells;
      assert Joined(c, 0);
      elm.next := next;
      if elm.next != null {
        next.prev := elm;
      } else {
        prev := elm;
      }
      next := elm;
      elm.prev := this;
      cells := Inserted(c, 1, elm);
      forall k | 0 <= k < |cells| ensures Joined(cells, k) {
        assert 2 <= k ==> old(Joined(c, k - 1));
      }
      InsertedDistinct(c, 1, elm);
    }

    /** TAILQ_INSERT_TAIL. */
    method InsertTail(elm: Link)
      requires Queue() && elm !in cells
      modifies this`cells, cells`next, cells`prev, elm`next, elm`prev
      ensures Queue() && Elems() == old(Elems()) + [elm]
    {
      ghost var c := cells;
      assert Joined(c, |c| - 1);
      elm.next := null;
      elm.prev := prev;
      prev.next := elm;
      prev := elm;
      cells := Inserted(c, |c|, elm);
      forall k | 0 <= k < |cells| ensures Joined(cells, k) {
        assert k < |c| ==> old(Joined(c, k));
      }
      InsertedDistinct(c, |c|, elm);
    }

    /** TAILQ_INSERT_BEFORE, in front of the `i`th element. */
    method InsertBefore(listelm: Link, elm: Link, ghost i: nat)
      requires Queue() && elm !in cells && i < |Elems()| && Elems()[i] == listelm
      modifies this`cells, cells`next, cells`prev, elm`next, elm`prev
      ensures Queue() && Elems() == old(Elems()[..i] + [elm] + Elems()[i..])
    {
      ghost var c := cells;
      assert Joined(c, i) && Joined(c, i + 1);
      DistinctAt(c, i);
      DistinctAt(c, i + 1);
      InsertedDistinct(c, i + 1, elm);
      InsertedTail(c, i + 1, elm);
      hide Inserted, Distinct;
      elm.prev := listelm.prev;
      elm.next := listelm;
      listelm.prev.next := elm;
      listelm.prev := elm;
      forall k | 0 <= k < |c| && k != i ensures Joined(c, k) {
        assert old(Joined(c, k));
      }
      LinkedOver(c, i + 1, elm);
      cells := Inserted(c, i + 1, elm);
    }

    /** TAILQ_INSERT_AFTER, behind the `i`th element. */
    method InsertAfter(listelm: Link, elm: Link, ghost i: nat)
      requires Queue() && elm !in cells && i < |Elems()| && Elems()[i] == listelm
      modifies this`cells, cells`next, cells`prev, elm`next, elm`prev
      ensures Queue() && Elems() == old(Elems()[..i + 1] + [elm] + Elems()[i + 1..])
    {
      ghost var c := cells;
      assert Joined(c, i + 1);
      DistinctAt(c, i + 1);
      DistinctAt(c, if i + 2 < |c| then i + 2 else 0);
      InsertedDistinct(c, i + 2, elm);
      InsertedTail(c, i + 2, elm);
      hide Inserted, Distinct;
      elm.next := listelm.next;
      if elm.next != null {
        elm.next.prev := elm;
      } else {
        prev := elm;
      }
      listelm.next := elm;
      elm.prev := listelm;
      forall k | 0 <= k < |c| && k != i + 1 ensures Joined(c, k) {
        assert old(Joined(c, k));
      }
      LinkedOver(c, i + 2, elm);
      cells := Inserted(c, i + 2, elm);
    }

    /** TAILQ_REMOVE of the `i`th element. */
    method Remove(elm: Link, ghost i: nat)
      requires Queue() && i < |Elems()| && Elems()[i] == elm
      modifies this`cells, cells`next, cells`prev
      ensures Queue() && Elems() == old(Elems()[..i] + Elems()[i + 1..])
    {
      ghost var c := cells;
      assert Joined(c, i) && Joined(c, i + 1);
      if elm.next != null {
        elm.next.prev := elm.prev;
      } else {
        prev := elm.prev;
      }
      elm.prev.next := elm.next;
      cells := c[..i + 1] + c[i + 2..];
      forall k | 0 <= k < |cells| ensures Joined(cells, k) {
        assert k <= i ==> old(Joined(c, k));
        assert k > i ==> old(Joined(c, k + 1));
      }
      RemovedTail(c, i + 1);
    }

    /** TAILQ_CONCAT: the elements of the other queue go to the end of this one. */
    method Concat(other: Link)
      requires Queue() && other.Queue() && Apart(cells, other.cells)
      modifies this`cells, cells`next, cells`prev, other`cells, other.cells`next, other.cells`prev
      ensures Queue() && other.Queue() && Elems() == old(Elems() + other.Elems()) && other.Elems() == []
    {
      ghost var c, d := cells, other.cells;
      assert Joined(c, |c| - 1) && Joined(d, 0) && Joined(d, |d| - 1);
      JoinedDistinct(c, d);
      if !other.IsEmpty() {
        prev.next := other.next;
        other.next.prev := prev;
        prev := other.prev;
        other.next := null;
        other.prev := other;
        cells, other.cells := c + d[1..], [other];
        forall k | 0 <= k < |cells| ensures Joined(cells, k) {
          assert k < |c| ==> old(Joined(c, k));
          assert k >= |c| ==> old(Joined(d, k - |c| + 1));
        }
      }
    }

    /** TAILQ_SWAP. */
    method Swap(other: Link)
      requires Queue() && other.Queue() && Apart(cells, other.cells)
      modifies this`cells, cells`next, cells`prev, other`cells, other.cells`next, other.cells`prev
      ensures Queue() && other.Queue() && Elems() == old(other.Elems()) && other.Elems() == old(Elems())
    {
      ghost var c, d := cells, other.cells;
      SwapLinks(other, c, d);
      JoinedDistinct(c, d);
      JoinedDistinct(d, c);
      hide Linked, Distinct;
      cells, other.cells := [this] + d[1..], [other] + c[1..];
    }

    method SwapLinks(other: Link, ghost c: seq<Link>, ghost d: seq<Link>)
      requires c != [] && c[0] == this && Distinct(c) && Linked(c)
      requires d != [] && d[0] == other && Distinct(d) && Linked(d) && Apart(c, d)
      modifies c`next, c`prev, d`next, d`prev
      ensures Linked([this] + d[1..]) && Linked([other] + c[1..])
    {
      assert Joined(c, 0) && Joined(d, 0) && Joined(c, |c| - 1) && Joined(d, |d| - 1);
      DistinctAt(c, 0);
      DistinctAt(d, 0);
      SecondApart(c, d);
      SecondApart(d, c);
      hide Distinct;
      var first, last := next, prev;
      next, prev := other.next, other.prev;
      other.next, other.prev := first, last;
      forall k | 0 < k < |d| - 1 ensures Joined(d, k) {
        assert old(Joined(d, k));
      }
      forall k | 0 < k < |c| - 1 ensures Joined(c, k) {
        assert old(Joined(c, k));
      }
      hide Linked;
      label Moved:
      Rehang(d);
      forall k | 0 < k < |c| - 1 ensures Joined(c, k) {
        assert old@Moved(Joined(c, k)) && c[k + 1] != Second(d, this);
      }
      other.Rehang(c);
    }

    /** This is the head now: the first element, or the head itself, points back to it. */
    method Rehang(ghost d: seq<Link>)
      requires d != [] && Distinct(d) && this !in d[1..] && forall k :: 0 < k < |d| - 1 ==> Joined(d, k)
      requires if |d| == 1 then next == null else next == d[1] && prev == d[|d| - 1] && d[|d| - 1].next == null
      modifies Second(d, this)`prev
      ensures Linked([this] + d[1..])
    {
      DistinctAt(d, if |d| > 1 then 1 else 0);
      hide Distinct;
      assert |d| > 1 ==> d[1] in d[1..];
      if next != null {
        next.prev := this;
      } else {
        prev := this;
      }
      forall k | 0 < k < |d| - 1 ensures Joined(d, k) {
        assert old(Joined(d, k));
      }
      LinkedHead(d, this);
    }

    /** TAILQ_PREV. */
    method Prev(elm: Link, ghost i: nat) returns (r: Link?)
      requires Queue() && i < |Elems()| && Elems()[i] == elm
      ensures r == if i == 0 then null else Elems()[i - 1]
    {
      assert Joined(cells, i) && Joined(cells, if i == 0 then |cells| - 1 else i - 1);
      r := elm.prev.prev.next;
    }

    /** TAILQ_LAST. */
    method Last() returns (r: Link?)
      requires Queue()
      ensures r == if Elems() == [] then null else Elems()[|Elems()| - 1]
    {
      assert Joined(cells, |cells| - 1) && (|cells| > 1 ==> Joined(cells, |cells| - 2));
      r := prev.prev.next;
    }

    /** TAILQ_FOREACH. */
    method Foreach() returns (visited: seq<Link>)
      requires Queue()
      ensures visited == Elems()
    {
      visited := [];
      assert Joined(cells, 0);
      var elm := next;
      while elm != null
        invariant |visited| < |cells| && visited == cells[1..][..|visited|] && elm == cells[|visited|].next
        decreases |cells| - |visited|
      {
        assert Joined(cells, |visited|);
        visited := visited + [elm];
        elm := elm.next;
      }
      assert Joined(cells, |visited|);
    }

    /** TAILQ_FOREACH_REVERSE. */
    method ForeachReverse() returns (visited: seq<Link>)
      requires Queue()
      ensures |visited| == |Elems()| && forall i :: 0 <= i < |visited| ==> visited[i] == Elems()[|visited| - 1 - i]
    {
      visited := [];
      var elm := Last();
      ghost var left := |cells| - 1;
      while elm != null
        invariant 0 <= left < |cells| && |visited| == |cells| - 1 - left
        invariant forall i :: 0 <= i < |visited| ==> visited[i] == cells[|cells| - 1 - i]
        invariant elm == if left == 0 then null else cells[left]
        decreases left
      {
        visited := visited + [elm];
        elm := Prev(elm, left - 1);
        left := left - 1;
      }
    }
  }

  ghost predicate Apart(c: seq<Link>, d: seq<Link>) {
    forall x :: x in c ==> x !in d
  }

  function After(c: seq<Link>, k: nat): Link
    requires k < |c|
  {
    if k + 1 < |c| then c[k + 1] else c[0]
  }

  /** The link of the `k`th cell reaches the next one, whose back-pointer is its address; the last
      one reaches nothing, and its address is the head's back-pointer. */
  ghost predicate Joined(c: seq<Link>, k: nat)
    requires k < |c|
    reads c`next, c`prev
  {
    c[k].next == (if k + 1 < |c| then c[k + 1] else null) && After(c, k).prev == c[k]
  }

  ghost predicate Linked(c: seq<Link>)
    reads c`next, c`prev
  {
    forall k :: 0 <= k < |c| ==> Joined(c, k)
  }

  function Inserted(c: seq<Link>, i: nat, elm: Link): (r: seq<Link>)
    requires i <= |c|
    ensures |r| == |c| + 1
  {
    c[..i] + [elm] + c[i..]
  }

  lemma DistinctAt(c: seq<Link>, a: nat)
    requires Distinct(c) && a < |c|
    ensures forall k :: 0 <= k < |c| && k != a ==> c[k] != c[a]
  {
  }

  /** Moving one head writes to no cell of the other queue. */
  lemma SecondApart(c: seq<Link>, d: seq<Link>)
    requires Distinct(c) && Distinct(d) && Apart(c, d) && c != [] && d != []
    ensures c[0] !in d[1..] && Second(d, c[0]) !in [d[0]] + c[1..]
    ensures forall k :: 0 < k < |c| ==> c[k] != Second(d, c[0])
  {
    assert c[0] in c && Second(d, d[0]) in d && d[0] in d;
    forall x | x in d[1..]
      ensures x != c[0]
    {
      assert x in d;
    }
    forall x | x in c[1..]
      ensures x != Second(d, c[0])
    {
      assert x in c;
      var k :| 0 <= k < |c| - 1 && c[1..][k] == x;
      assert c[k + 1] == x;
    }
    assert forall k :: 0 < k < |c| ==> c[k] == c[1..][k - 1];
  }

  function Second(d: seq<Link>, h: Link): Link {
    if |d| > 1 then d[1] else h
  }

  /** The elements behind another head. */
  lemma LinkedHead(d: seq<Link>, h: Link)
    requires d != [] && forall k :: 0 < k < |d| - 1 ==> Joined(d, k)
    requires if |d| == 1 then h.next == null && h.prev == h
             else h.next == d[1] && d[1].prev == h && d[|d| - 1].next == null && h.prev == d[|d| - 1]
    ensures Linked([h] + d[1..])
  {
    var r := [h] + d[1..];
    forall k | 0 <= k < |r|
      ensures Joined(r, k)
    {
      assert 0 < k < |d| - 1 ==> Joined(d, k);
    }
  }

  /** The links at place `p` lead over the new cell, and the others are as before. */
  lemma LinkedOver(c: seq<Link>, p: nat, elm: Link)
    requires 0 < p <= |c| && forall k :: 0 <= k < |c| && k != p - 1 ==> Joined(c, k)
    requires elm.next == (if p < |c| then c[p] else null) && elm.prev == c[p - 1]
    requires c[p - 1].next == elm && After(c, p - 1).prev == elm
    ensures Linked(Inserted(c, p, elm)) && Inserted(c, p, elm)[0] == c[0]
  {
    var r := Inserted(c, p, elm);
    forall k | 0 <= k < |r|
      ensures Joined(r, k)
    {
      InsertedLinks(c, p, elm, k);
      if k < p - 1 {
        assert Joined(c, k);
      } else if k > p {
        assert Joined(c, k - 1);
      }
    }
  }

  lemma InsertedLinks(c: seq<Link>, p: nat, elm: Link, k: nat)
    requires 0 < p <= |c| && k <= |c|
    ensures var r := Inserted(c, p, elm);
      && r[0] == c[0] && r[k] == (if k < p then c[k] else if k == p then elm else c[k - 1])
      && After(r, k) == (if k == p - 1 then elm else if k < p then After(c, k) else After(c, k - 1))
  {
  }

  lemma InsertedTail(c: seq<Link>, i: nat, elm: Link)
    requires 0 < i <= |c|
    ensures Inserted(c, i, elm)[1..] == c[1..][..i - 1] + [elm] + c[1..][i - 1..]
  {
  }

  lemma RemovedTail(c: seq<Link>, i: nat)
    requires 0 < i < |c|
    ensures (c[..i] + c[i + 1..])[1..] == c[1..][..i - 1] + c[1..][i..]
    ensures Distinct(c) ==> Distinct(c[..i] + c[i + 1..])
  {
  }

  lemma JoinedDistinct(c: seq<Link>, d: seq<Link>)
    requires Distinct(c) && Distinct(d) && Apart(c, d) && d != [] && c != []
    ensures Distinct(c + d[1..]) && Distinct([c[0]] + d[1..]) && c[0] != d[0]
    ensures (c + d[1..])[1..] == c[1..] + d[1..]
    ensures forall i, j :: 0 <= i < |c| && 0 <= j < |d| ==> c[i] != d[j]
  {
    assert forall i :: 0 <= i < |c| ==> c[i] in c;
    assert forall j :: 0 <= j < |d| ==> d[j] in d;
  }

  lemma InsertedDistinct(c: seq<Link>, i: nat, elm: Link)
    requires i <= |c| && Distinct(c) && elm !in c
    ensures Distinct(Inserted(c, i, elm))
  {
  }
}
