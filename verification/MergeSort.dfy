/**
 The bottom-up, in-place merge sort of a singly linked list used by the CoreMark list benchmark.
 */
module MergeSort {

  import opened Common

  class Node<T> {
    const info: T
    var next: Node?<T>

    constructor (info: T, next: Node?<T>)
      ensures this.info == info && this.next == next
    {
      this.info := info;
      this.next := next;
    }
  }

  /** The comparison `cmp(x, y) <= 0`. */
  type Le<!T> = (T, T) -> bool

  ghost predicate TotalPreorder<T(!new)>(le: Le<T>) {
    && (forall x, y :: le(x, y) || le(y, x))
    && (forall x, y, z :: le(x, y) && le(y, z) ==> le(x, z))
  }

  // ----- the algorithm on sequences of nodes ------------------------------------------------

  /** Merge two runs, taking from the first on equality. */
  ghost function Merge<T>(xs: seq<Node<T>>, ys: seq<Node<T>>, le: Le<T>): seq<Node<T>> {
    if xs == [] then ys
    else if ys == [] then xs
    else if le(xs[0].info, ys[0].info) then [xs[0]] + Merge(xs[1..], ys, le)
    else [ys[0]] + Merge(xs, ys[1..], le)
  }

  /** One pass: merge neighbouring runs of `w` nodes. */
  ghost function Pass<T>(s: seq<Node<T>>, w: nat, le: Le<T>): seq<Node<T>>
    requires w > 0
    decreases |s|
  {
    if s == [] then []
    else
      var m := Min(w, |s|);
      var n := Min(2 * w, |s|);
      Merge(s[..m], s[m..n], le) + Pass(s[n..], w, le)
  }

  /** All passes, doubling the run length until one merge covers the whole list. */
  ghost function Passes<T>(s: seq<Node<T>>, w: nat, le: Le<T>): seq<Node<T>>
    requires w > 0
    decreases |s| - 2 * w
  {
    if |s| <= 2 * w then Pass(s, w, le)
    else PassLength(s, w, le); Passes(Pass(s, w, le), 2 * w, le)
  }

  lemma {:induction false} MergeElements<T>(xs: seq<Node<T>>, ys: seq<Node<T>>, le: Le<T>)
    ensures multiset(Merge(xs, ys, le)) == multiset(xs) + multiset(ys)
    ensures |Merge(xs, ys, le)| == |xs| + |ys|
    decreases |xs| + |ys|
  {
    if xs != [] && ys != [] {
      if le(xs[0].info, ys[0].info) {
        MergeElements(xs[1..], ys, le);
        assert xs == [xs[0]] + xs[1..];
      } else {
        MergeElements(xs, ys[1..], le);
        assert ys == [ys[0]] + ys[1..];
      }
    }
  }

  lemma Cut<E>(s: seq<E>, m: nat, n: nat)
    requires m <= n <= |s|
    ensures multiset(s) == multiset(s[..m]) + multiset(s[m..n]) + multiset(s[n..])
  {
    assert s == s[..m] + s[m..n] + s[n..];
  }

  lemma {:induction false} PassLength<T>(s: seq<Node<T>>, w: nat, le: Le<T>)
    requires w > 0
    ensures |Pass(s, w, le)| == |s| && multiset(Pass(s, w, le)) == multiset(s)
    decreases |s|
  {
    if s != [] {
      var m, n := Min(w, |s|), Min(2 * w, |s|);
      MergeElements(s[..m], s[m..n], le);
      PassLength(s[n..], w, le);
      Cut(s, m, n);
    }
  }

  // ----- sorted and stable ------------------------------------------------------------------

  /** Where a node stood in the list that was handed in. */
  type Rank<!T> = Node<T> -> int

  /** `x` must come before `y`: it is smaller, or equal and it stood earlier. */
  ghost predicate Before<T>(x: Node<T>, y: Node<T>, le: Le<T>, rank: Rank<T>) {
    le(x.info, y.info) && (le(y.info, x.info) ==> rank(x) < rank(y))
  }

  ghost predicate InOrder<T>(s: seq<Node<T>>, le: Le<T>, rank: Rank<T>) {
    forall i, j :: 0 <= i < j < |s| ==> Before(s[i], s[j], le, rank)
  }

  ghost predicate AllEarlier<T>(xs: seq<Node<T>>, ys: seq<Node<T>>, rank: Rank<T>) {
    forall i, j :: 0 <= i < |xs| && 0 <= j < |ys| ==> rank(xs[i]) < rank(ys[j])
  }

  /** Runs of `w` nodes are in order, and each holds nodes that stood before those of later runs. */
  ghost predicate Runs<T>(s: seq<Node<T>>, w: nat, le: Le<T>, rank: Rank<T>)
    requires w > 0
    decreases |s|
  {
    if |s| <= w then InOrder(s, le, rank)
    else InOrder(s[..w], le, rank) && AllEarlier(s[..w], s[w..], rank) && Runs(s[w..], w, le, rank)
  }

  lemma MergeMembers<T>(xs: seq<Node<T>>, ys: seq<Node<T>>, le: Le<T>)
    ensures forall k :: 0 <= k < |Merge(xs, ys, le)| ==> Merge(xs, ys, le)[k] in xs || Merge(xs, ys, le)[k] in ys
  {
    MergeElements(xs, ys, le);
    forall k | 0 <= k < |Merge(xs, ys, le)| ensures Merge(xs, ys, le)[k] in xs || Merge(xs, ys, le)[k] in ys {
      assert Merge(xs, ys, le)[k] in multiset(Merge(xs, ys, le));
    }
  }

  lemma HeadFirst<T>(s: seq<Node<T>>, z: Node<T>, le: Le<T>, rank: Rank<T>)
    requires InOrder(s, le, rank) && s != [] && (z in s || z in s[1..])
    ensures z == s[0] || Before(s[0], z, le, rank)
    ensures z in s[1..] ==> Before(s[0], z, le, rank)
  {
    if z in s[1..] { var k :| 1 <= k < |s| && s[k] == z; } else { var k :| 0 <= k < |s| && s[k] == z; }
  }

  lemma {:induction false} MergeInOrder<T(!new)>(xs: seq<Node<T>>, ys: seq<Node<T>>, le: Le<T>, rank: Rank<T>)
    requires TotalPreorder(le) && InOrder(xs, le, rank) && InOrder(ys, le, rank) && AllEarlier(xs, ys, rank)
    ensures InOrder(Merge(xs, ys, le), le, rank)
    decreases |xs| + |ys|
  {
    if xs != [] && ys != [] {
      var first, rest;
      if le(xs[0].info, ys[0].info) {
        MergeInOrder(xs[1..], ys, le, rank);
        MergeMembers(xs[1..], ys, le);
        first, rest := xs[0], Merge(xs[1..], ys, le);
        forall k | 0 <= k < |rest| ensures Before(first, rest[k], le, rank) {
          HeadFirst(if rest[k] in ys then ys else xs, rest[k], le, rank);
        }
      } else {
        MergeInOrder(xs, ys[1..], le, rank);
        MergeMembers(xs, ys[1..], le);
        first, rest := ys[0], Merge(xs, ys[1..], le);
        forall k | 0 <= k < |rest| ensures Before(first, rest[k], le, rank) {
          HeadFirst(if rest[k] in xs then xs else ys, rest[k], le, rank);
        }
      }
      assert Merge(xs, ys, le) == [first] + rest;
    }
  }

  lemma PassMembers<T>(s: seq<Node<T>>, w: nat, le: Le<T>)
    requires w > 0
    ensures |Pass(s, w, le)| == |s| && forall k :: 0 <= k < |s| ==> Pass(s, w, le)[k] in s
  {
    PassLength(s, w, le);
    forall k | 0 <= k < |s| ensures Pass(s, w, le)[k] in s {
      assert Pass(s, w, le)[k] in multiset(Pass(s, w, le));
    }
  }

  /** A pass turns runs of `w` into runs of `2 * w`. */
  lemma {:induction false} PassRuns<T(!new)>(s: seq<Node<T>>, w: nat, le: Le<T>, rank: Rank<T>)
    requires w > 0 && TotalPreorder(le) && Runs(s, w, le, rank)
    ensures Runs(Pass(s, w, le), 2 * w, le, rank)
    decreases |s|
  {
    if s != [] {
      var m, n := Min(w, |s|), Min(2 * w, |s|);
      var head, tail := Merge(s[..m], s[m..n], le), Pass(s[n..], w, le);
      MergeElements(s[..m], s[m..n], le);
      MergeMembers(s[..m], s[m..n], le);
      HeadRuns(s, w, le, rank);
      MergeInOrder(s[..m], s[m..n], le, rank);
      PassRuns(s[n..], w, le, rank);
      PassMembers(s[n..], w, le);
      PassLength(s[n..], w, le);
      assert (head + tail)[..n] == head && (head + tail)[n..] == tail;
      assert AllEarlier(head, tail, rank);
      if |s| <= 2 * w { assert tail == [] && head + tail == head; }
    }
  }

  /** The first two runs of a list, and what follows them. */
  lemma HeadRuns<T>(s: seq<Node<T>>, w: nat, le: Le<T>, rank: Rank<T>)
    requires w > 0 && s != [] && Runs(s, w, le, rank)
    ensures var m, n := Min(w, |s|), Min(2 * w, |s|);
            && InOrder(s[..m], le, rank) && InOrder(s[m..n], le, rank) && AllEarlier(s[..m], s[m..n], rank)
            && AllEarlier(s[..m], s[n..], rank) && AllEarlier(s[m..n], s[n..], rank) && Runs(s[n..], w, le, rank)
  {
    hide InOrder, AllEarlier, Runs;
    var m, n := Min(w, |s|), Min(2 * w, |s|);
    var t := s[m..];
    FirstRun(s, w, le, rank);
    FirstRun(t, w, le, rank);
    Slices(s, m, n);
    EarlierParts(s[..m], t, n - m, rank);
  }

  lemma Slices<T>(s: seq<T>, m: nat, n: nat)
    requires m <= n <= |s|
    ensures s[m..][..n - m] == s[m..n] && s[m..][n - m..] == s[n..]
  {}

  /** The first run of a list, and what follows it. */
  lemma FirstRun<T>(t: seq<Node<T>>, w: nat, le: Le<T>, rank: Rank<T>)
    requires w > 0 && Runs(t, w, le, rank)
    ensures var k := Min(w, |t|);
            InOrder(t[..k], le, rank) && AllEarlier(t[..k], t[k..], rank) && Runs(t[k..], w, le, rank)
  {
    hide InOrder, AllEarlier;
    if |t| <= w {
      assert t[..|t|] == t && t[|t|..] == [];
      NoneEarlier(t, rank);
      NoneInOrder(le, rank);
    }
  }

  lemma EarlierParts<T>(xs: seq<Node<T>>, ys: seq<Node<T>>, k: nat, rank: Rank<T>)
    requires AllEarlier(xs, ys, rank) && k <= |ys|
    ensures AllEarlier(xs, ys[..k], rank) && AllEarlier(xs, ys[k..], rank)
  {}

  lemma NoneEarlier<T>(xs: seq<Node<T>>, rank: Rank<T>)
    ensures AllEarlier(xs, [], rank)
  {}

  lemma NoneInOrder<T>(le: Le<T>, rank: Rank<T>)
    ensures InOrder([], le, rank)
  {}

  /** The doubling passes put the whole list in order. */
  lemma {:induction false} PassesInOrder<T(!new)>(s: seq<Node<T>>, w: nat, le: Le<T>, rank: Rank<T>)
    requires w > 0 && TotalPreorder(le) && Runs(s, w, le, rank)
    ensures InOrder(Passes(s, w, le), le, rank) && multiset(Passes(s, w, le)) == multiset(s)
    decreases |s| - 2 * w
  {
    PassRuns(s, w, le, rank);
    PassLength(s, w, le);
    if |s| > 2 * w {
      PassesInOrder(Pass(s, w, le), 2 * w, le, rank);
    }
  }

  lemma {:induction false} SingletonRuns<T(!new)>(s: seq<Node<T>>, le: Le<T>, rank: Rank<T>)
    requires TotalPreorder(le) && forall i, j :: 0 <= i < j < |s| ==> rank(s[i]) < rank(s[j])
    ensures Runs(s, 1, le, rank)
    decreases |s|
  {
    if |s| > 1 {
      SingletonRuns(s[1..], le, rank);
    }
  }
}
