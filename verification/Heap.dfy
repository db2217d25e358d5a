/**
The binary heap of `src/worker/common/heap.ts`: an array kept in heap order by
two sift loops, with the priority given by a comparator.
 */
module Heap {
  import opened Bytes

  /** The comparator contract: `cmp` is the sign function of a total preorder. */
  ghost predicate TotalPreorder<T(!new)>(cmp: (T, T) -> int) {
    && (forall x, y :: cmp(x, y) < 0 <==> cmp(y, x) > 0)
    && (forall x, y, z {:trigger cmp(x, y), cmp(y, z), cmp(x, z)} ::
          cmp(x, y) <= 0 && cmp(y, z) <= 0 ==> cmp(x, z) <= 0)
  }

  function Parent(i: int): int {
    (i - 1) / 2
  }

  predicate InOrder<T(!new)>(cmp: (T, T) -> int, s: seq<T>, i: int, j: int) {
    0 <= i < |s| && 0 <= j < |s| && cmp(s[i], s[j]) <= 0
  }

  /** Heap order on every edge whose parent is at or after `lo`. */
  ghost predicate OrderedFrom<T(!new)>(cmp: (T, T) -> int, s: seq<T>, lo: nat) {
    forall j :: 0 < j < |s| && lo <= Parent(j) ==> InOrder(cmp, s, Parent(j), j)
  }

  /** Heap order from `lo` on, except perhaps on the edges from `i` to its children. */
  ghost predicate OrderedBelowExcept<T(!new)>(cmp: (T, T) -> int, s: seq<T>, lo: nat, i: nat) {
    && (forall j :: 0 < j < |s| && lo <= Parent(j) != i ==> InOrder(cmp, s, Parent(j), j))
    && (forall j :: 0 < j < |s| && Parent(j) == i && 0 < i && lo <= Parent(i) ==> InOrder(cmp, s, Parent(i), j))
  }

  /** Heap order, except perhaps on the edge from `i` to its parent. */
  ghost predicate OrderedAboveExcept<T(!new)>(cmp: (T, T) -> int, s: seq<T>, i: nat) {
    && (forall j :: 0 < j < |s| && j != i ==> InOrder(cmp, s, Parent(j), j))
    && (forall j :: 0 < j < |s| && Parent(j) == i && 0 < i ==> InOrder(cmp, s, Parent(i), j))
  }

  lemma {:induction false} RootIsMinimum<T(!new)>(cmp: (T, T) -> int, s: seq<T>, i: nat)
    requires TotalPreorder(cmp) && OrderedFrom(cmp, s, 0) && i < |s|
    ensures cmp(s[0], s[i]) <= 0
    decreases i
  {
    if i == 0 {
      assert cmp(s[0], s[0]) <= 0;
    } else {
      RootIsMinimum(cmp, s, Parent(i));
      assert InOrder(cmp, s, Parent(i), i);
    }
  }

  class BinaryHeap<T(!new)> {
    const cmp: (T, T) -> int
    var a: seq<T>

    ghost predicate Valid()
      reads this
    {
      TotalPreorder(cmp) && OrderedFrom(cmp, a, 0)
    }

    constructor (cmp: (T, T) -> int, items: seq<T>)
      requires TotalPreorder(cmp)
      ensures Valid() && this.cmp == cmp
      ensures multiset(a) == multiset(items)
    {
      this.cmp := cmp;
      a := items;
      new;
      if |a| > 1 {
        Heapify();
      }
    }

    method IsEmpty() returns (empty: bool)
      ensures empty == (|a| == 0)
    {
      empty := |a| == 0;
    }

    method Push(v: T)
      requires Valid()
      modifies `a
      ensures Valid()
      ensures multiset(a) == old(multiset(a)) + multiset{v}
    {
      a := a + [v];
      SiftUp(|a| - 1);
    }

    /** The popped element precedes or ties every element that was in the heap. */
    method Pop() returns (top: Option<T>)
      requires Valid()
      modifies `a
      ensures Valid()
      ensures top.None? <==> old(|a|) == 0
      ensures top.None? ==> a == old(a)
      ensures top.Some? ==> old(multiset(a)) == multiset(a) + multiset{top.value}
      ensures top.Some? ==> forall x :: x in old(a) ==> cmp(top.value, x) <= 0
    {
      if |a| == 0 {
        return None;
      }
      RootPrecedesAll(cmp, a);
      top := Some(a[0]);
      var last := a[|a| - 1];
      LastToRoot(cmp, a);
      a := a[..|a| - 1];
      if |a| > 0 {
        a := a[0 := last];
        SiftDown(0, 0);
      }
    }

    method Heapify()
      requires TotalPreorder(cmp)
      modifies `a
      ensures Valid()
      ensures multiset(a) == old(multiset(a))
    {
      var i := |a| / 2 - 1;
      while i >= 0
        invariant -1 <= i < |a|
        invariant OrderedFrom(cmp, a, i + 1)
        invariant multiset(a) == old(multiset(a))
      {
        SiftDown(i, i);
        i := i - 1;
      }
    }

    method SiftDown(start: nat, ghost lo: nat)
      requires TotalPreorder(cmp)
      requires start < |a| && lo <= start
      requires OrderedBelowExcept(cmp, a, lo, start)
      modifies `a
      ensures OrderedFrom(cmp, a, lo)
      ensures multiset(a) == old(multiset(a)) && |a| == old(|a|)
    {
      var i, n := start, |a|;
      while true
        invariant lo <= i < |a| == n
        invariant OrderedBelowExcept(cmp, a, lo, i)
        invariant multiset(a) == old(multiset(a))
        decreases n - i
      {
        var best := SelectBest(i, n);
        if best == i {
          SiftDownDone(cmp, a, lo, i);
          return;
        }
        SiftDownStep(cmp, a, lo, i, best);
        Swap(i, best);
        i := best;
      }
    }

    method SelectBest(i: nat, n: nat) returns (best: nat)
      requires i < |a| == n
      ensures best == Best(cmp, a, i)
    {
      var l := i * 2 + 1;
      var r := l + 1;
      best := i;
      if l < n && cmp(a[l], a[best]) < 0 {
        best := l;
      }
      if r < n && cmp(a[r], a[best]) < 0 {
        best := r;
      }
    }

    method SiftUp(start: nat)
      requires TotalPreorder(cmp)
      requires start < |a|
      requires OrderedAboveExcept(cmp, a, start)
      modifies `a
      ensures OrderedFrom(cmp, a, 0)
      ensures multiset(a) == old(multiset(a))
    {
      var i := start;
      while i > 0
        invariant 0 <= i < |a|
        invariant OrderedAboveExcept(cmp, a, i)
        invariant multiset(a) == old(multiset(a))
      {
        var p := (i - 1) / 2;
        if cmp(a[i], a[p]) < 0 {
          SiftUpStep(cmp, a, i);
          Swap(i, p);
          i := p;
        } else {
          break;
        }
      }
    }

    method Swap(i: nat, j: nat)
      requires i < |a| && j < |a|
      modifies `a
      ensures a == Swapped(old(a), i, j)
      ensures multiset(a) == old(multiset(a))
    {
      var t := a[i];
      a := a[i := a[j]];
      a := a[j := t];
    }
  }

  function Swapped<T>(s: seq<T>, i: nat, j: nat): (t: seq<T>)
    requires i < |s| && j < |s|
  {
    s[i := s[j]][j := s[i]]
  }

  /** The position among `i` and its children that `SiftDown` selects. */
  function Best<T>(cmp: (T, T) -> int, s: seq<T>, i: nat): (best: nat)
    requires i < |s|
    ensures best < |s|
  {
    var l, r := i * 2 + 1, i * 2 + 2;
    var b := if l < |s| && cmp(s[l], s[i]) < 0 then l else i;
    if r < |s| && cmp(s[r], s[b]) < 0 then r else b
  }

  lemma {:induction false} BestIsSmallest<T(!new)>(cmp: (T, T) -> int, s: seq<T>, i: nat, j: nat)
    requires TotalPreorder(cmp) && i < |s| && j < |s| && (j == i || (0 < j && Parent(j) == i))
    ensures InOrder(cmp, s, Best(cmp, s, i), j)
  {
    var l, r, b := i * 2 + 1, i * 2 + 2, Best(cmp, s, i);
    assert j == i || j == l || j == r;
    assert cmp(s[i], s[i]) <= 0 && cmp(s[j], s[j]) <= 0 && cmp(s[b], s[j]) <= 0;
  }

  lemma {:induction false} SiftDownDone<T(!new)>(cmp: (T, T) -> int, s: seq<T>, lo: nat, i: nat)
    requires TotalPreorder(cmp) && OrderedBelowExcept(cmp, s, lo, i)
    requires i < |s| && Best(cmp, s, i) == i
    ensures OrderedFrom(cmp, s, lo)
  {
    forall j | 0 < j < |s| && lo <= Parent(j) ensures InOrder(cmp, s, Parent(j), j) {
      if Parent(j) == i {
        BestIsSmallest(cmp, s, i, j);
      }
    }
  }

  /** Swapping a node with its smaller child moves the only broken edges one level down. */
  lemma {:induction false} SiftDownStep<T(!new)>(cmp: (T, T) -> int, s: seq<T>, lo: nat, i: nat, best: nat)
    requires TotalPreorder(cmp) && OrderedBelowExcept(cmp, s, lo, i)
    requires lo <= i < |s| && best == Best(cmp, s, i) != i
    ensures OrderedBelowExcept(cmp, Swapped(s, i, best), lo, best)
  {
    var t := Swapped(s, i, best);
    forall j | 0 < j < |t| && lo <= Parent(j) != best ensures InOrder(cmp, t, Parent(j), j) {
      if j == best {
        BestIsSmallest(cmp, s, i, i);
      } else if Parent(j) == i {
        BestIsSmallest(cmp, s, i, j);
      } else if j == i {
        assert InOrder(cmp, s, Parent(i), best);
      } else {
        assert InOrder(cmp, s, Parent(j), j);
      }
    }
    forall j | 0 < j < |t| && Parent(j) == best ensures InOrder(cmp, t, Parent(best), j) {
      assert InOrder(cmp, s, Parent(j), j);
    }
  }

  /** Swapping a node with its larger parent moves the only broken edge one level up. */
  lemma {:induction false} SiftUpStep<T(!new)>(cmp: (T, T) -> int, s: seq<T>, i: nat)
    requires TotalPreorder(cmp) && OrderedAboveExcept(cmp, s, i)
    requires 0 < i < |s|
    requires cmp(s[i], s[Parent(i)]) < 0
    ensures OrderedAboveExcept(cmp, Swapped(s, i, Parent(i)), Parent(i))
  {
    var p := Parent(i);
    var t := Swapped(s, i, p);
    forall j | 0 < j < |t| && j != p ensures InOrder(cmp, t, Parent(j), j) {
      if j != i {
        assert InOrder(cmp, s, Parent(j), j);
      }
      if Parent(j) == i {
        assert InOrder(cmp, s, p, j);
      }
      if Parent(j) == p && j != i {
        assert cmp(s[i], s[p]) <= 0 && cmp(s[p], s[j]) <= 0 && cmp(s[i], s[j]) <= 0;
      }
    }
    forall j | 0 < j < |t| && Parent(j) == p && 0 < p ensures InOrder(cmp, t, Parent(p), j) {
      assert InOrder(cmp, s, Parent(p), p);
      if j != i {
        assert InOrder(cmp, s, p, j);
        assert cmp(s[Parent(p)], s[j]) <= 0;
      }
    }
  }

  lemma {:induction false} RootPrecedesAll<T(!new)>(cmp: (T, T) -> int, s: seq<T>)
    requires TotalPreorder(cmp) && OrderedFrom(cmp, s, 0) && |s| > 0
    ensures forall x :: x in s ==> cmp(s[0], x) <= 0
  {
    forall x | x in s ensures cmp(s[0], x) <= 0 {
      var i :| 0 <= i < |s| && s[i] == x;
      RootIsMinimum(cmp, s, i);
    }
  }

  /** Moving the last element to the root breaks only the edges below the root. */
  lemma {:induction false} LastToRoot<T(!new)>(cmp: (T, T) -> int, s: seq<T>)
    requires OrderedFrom(cmp, s, 0) && |s| > 0
    ensures |s| == 1 ==> multiset(s) == multiset{s[0]}
    ensures |s| > 1 ==>
      var t := s[..|s| - 1][0 := s[|s| - 1]];
      OrderedBelowExcept(cmp, t, 0, 0) && multiset(s) == multiset(t) + multiset{s[0]}
  {
    var u, last := s[..|s| - 1], s[|s| - 1];
    assert s == u + [last];
    if |s| > 1 {
      var t := u[0 := last];
      assert multiset(t) == multiset(u) - multiset{u[0]} + multiset{last};
      forall j | 0 < j < |t| && 0 != Parent(j) ensures InOrder(cmp, t, Parent(j), j) {
        assert InOrder(cmp, s, Parent(j), j);
      }
    }
  }
}
