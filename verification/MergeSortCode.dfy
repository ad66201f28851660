/** The merge sort on the heap: it relinks `next` fields and allocates nothing. */
module MergeSortCode {

  import opened Common
  import opened MergeSort

  ghost predicate Chain<T>(s: seq<Node<T>>)
    reads s
  {
    forall k :: 0 <= k < |s| - 1 ==> s[k].next == s[k + 1]
  }

  /** The nodes of a list that ends in null. */
  ghost predicate Linked<T>(s: seq<Node<T>>)
    reads s
  {
    Chain(s) && (s != [] ==> s[|s| - 1].next == null)
  }

  ghost function First<T>(s: seq<Node<T>>): Node?<T> {
    if s == [] then null else s[0]
  }

  ghost function Last<T>(s: seq<Node<T>>): Node?<T> {
    if s == [] then null else s[|s| - 1]
  }

  ghost predicate NoDup<T>(s: seq<Node<T>>) {
    forall i, j :: 0 <= i < j < |s| ==> s[i] != s[j]
  }

  ghost predicate Apart<T>(s: seq<Node<T>>, t: seq<Node<T>>) {
    forall i, j :: 0 <= i < |s| && 0 <= j < |t| ==> s[i] != t[j]
  }

  /** Three lists of nodes that share none. */
  ghost predicate Separate<T>(done: seq<Node<T>>, xs: seq<Node<T>>, rest: seq<Node<T>>) {
    NoDup(done) && NoDup(xs) && NoDup(rest) && Apart(done, xs) && Apart(done, rest) && Apart(xs, rest)
  }

  /** The heap in the middle of a pass: what is merged, what is left of the run at `p`, and what follows from `q` on. */
  ghost predicate Heap<T>(done: seq<Node<T>>, xs: seq<Node<T>>, rest: seq<Node<T>>)
    reads done, xs, rest
  {
    Separate(done, xs, rest) && Chain(done) && Chain(xs) && Linked(rest)
  }

  /** Append the node `e`, just taken off the front of `xs` or `rest`, to the merged list. */
  method Append<T>(e: Node<T>, list: Node?<T>, tail: Node?<T>,
                   ghost done: seq<Node<T>>, ghost xs: seq<Node<T>>, ghost rest: seq<Node<T>>)
    returns (list': Node<T>, tail': Node<T>)
    requires Separate(done + [e], xs, rest) && Chain(done) && Chain(xs) && Linked(rest)
    requires list == First(done) && tail == Last(done)
    modifies if tail == null then {} else {tail}
    ensures Heap(done + [e], xs, rest) && list' == (done + [e])[0] && tail' == e
    ensures tail != null ==> tail.next == e
  {
    if tail != null {
      assert done[|done| - 1] == (done + [e])[|done| - 1];
      assert forall k :: 0 <= k < |done| - 1 ==> (done + [e])[k] != (done + [e])[|done| - 1];
      tail.next := e;
      list' := list;
    } else {
      list' := e;
    }
    tail' := e;
    forall k | 0 <= k < |done + [e]| - 1 ensures (done + [e])[k].next == (done + [e])[k + 1] {
      assert (done + [e])[k] == done[k];
    }
  }

  ghost predicate Within<T>(s: seq<Node<T>>, all: set<Node<T>>) {
    forall k :: 0 <= k < |s| ==> s[k] in all
  }

  lemma TakeFromRun<T>(done: seq<Node<T>>, xs: seq<Node<T>>, rest: seq<Node<T>>)
    requires Separate(done, xs, rest) && xs != []
    ensures Separate(done + [xs[0]], xs[1..], rest)
  {}

  lemma TakeFromRest<T>(done: seq<Node<T>>, xs: seq<Node<T>>, rest: seq<Node<T>>)
    requires Separate(done, xs, rest) && rest != []
    ensures Separate(done + [rest[0]], xs, rest[1..])
  {}

  /** The nodes that may still be taken from the second run. */
  ghost function SecondRun<T>(rest: seq<Node<T>>, qsize: nat): seq<Node<T>> {
    rest[..Min(qsize, |rest|)]
  }

  ghost function AfterRun<T>(rest: seq<Node<T>>, qsize: nat): seq<Node<T>> {
    rest[Min(qsize, |rest|)..]
  }

  /** What is still to come after `done`, stated by the merge of what is left. */
  ghost function Goal<T>(done: seq<Node<T>>, xs: seq<Node<T>>, rest: seq<Node<T>>, qsize: nat,
                         le: Le<T>): seq<Node<T>>
  {
    done + Merge(xs, SecondRun(rest, qsize), le)
  }

  lemma GoalRun<T>(done: seq<Node<T>>, xs: seq<Node<T>>, rest: seq<Node<T>>, qsize: nat, le: Le<T>)
    requires xs != [] && (qsize == 0 || rest == [] || le(xs[0].info, rest[0].info))
    ensures Goal(done + [xs[0]], xs[1..], rest, qsize, le) == Goal(done, xs, rest, qsize, le)
  {
    var ys := SecondRun(rest, qsize);
    assert Merge(xs, ys, le) == [xs[0]] + Merge(xs[1..], ys, le);
  }

  lemma GoalRest<T>(done: seq<Node<T>>, xs: seq<Node<T>>, rest: seq<Node<T>>, qsize: nat, le: Le<T>)
    requires rest != [] && qsize > 0 && (xs == [] || !le(xs[0].info, rest[0].info))
    ensures Goal(done + [rest[0]], xs, rest[1..], qsize - 1, le) == Goal(done, xs, rest, qsize, le)
    ensures AfterRun(rest[1..], qsize - 1) == AfterRun(rest, qsize)
  {
    var ys := SecondRun(rest, qsize);
    assert SecondRun(rest[1..], qsize - 1) == ys[1..] && ys[0] == rest[0];
    assert Merge(xs, ys, le) == [ys[0]] + Merge(xs, ys[1..], le);
  }

  lemma GoalReached<T>(done: seq<Node<T>>, xs: seq<Node<T>>, rest: seq<Node<T>>, qsize: nat, le: Le<T>)
    requires xs == [] && (qsize == 0 || rest == [])
    ensures Goal(done, xs, rest, qsize, le) == done && AfterRun(rest, qsize) == rest
  {
    assert SecondRun(rest, qsize) == [];
    assert Merge(xs, SecondRun(rest, qsize), le) == [];
  }

  /** The inner loop: merge the run of `psize` nodes at `p` with at most `qsize` nodes from `q` on. */
  method MergePair<T>(p0: Node<T>, q0: Node?<T>, psize0: nat, qsize0: nat, list0: Node?<T>, tail0: Node?<T>, le: Le<T>,
                      ghost all: set<Node<T>>, ghost done0: seq<Node<T>>, ghost xs0: seq<Node<T>>,
                      ghost rest0: seq<Node<T>>)
    returns (q: Node?<T>, list: Node?<T>, tail: Node?<T>)
    requires Heap(done0, xs0, rest0) && Within(done0, all) && Within(xs0, all) && Within(rest0, all)
    requires xs0 != [] && p0 == xs0[0] && psize0 == |xs0| && q0 == First(rest0)
    requires list0 == First(done0) && tail0 == Last(done0)
    modifies all
    ensures var done := Goal(done0, xs0, rest0, qsize0, le); var rest := AfterRun(rest0, qsize0);
            && Heap(done, [], rest) && Within(done, all) && q == First(rest) && list == First(done)
            && tail == Last(done)
  {
    hide Goal, AfterRun;
    var p, psize, qsize := p0 as Node?<T>, psize0, qsize0;
    q, list, tail := q0, list0, tail0;
    ghost var done, xs, rest := done0, xs0, rest0;
    while psize > 0 || (qsize > 0 && q != null)
      invariant Heap(done, xs, rest) && Within(done, all) && Within(xs, all) && Within(rest, all)
      invariant psize == |xs| && (psize > 0 ==> p == xs[0]) && q == First(rest) && qsize >= 0
      invariant list == First(done) && tail == Last(done)
      invariant Goal(done, xs, rest, qsize, le) == Goal(done0, xs0, rest0, qsize0, le)
      invariant AfterRun(rest, qsize) == AfterRun(rest0, qsize0)
      decreases psize + qsize
    {
      // decide whether the next node comes from p or q
      var fromQ;
      if psize == 0 {
        fromQ := true;
      } else if qsize == 0 || q == null {
        fromQ := false;
      } else if le(p.info, q.info) {
        fromQ := false;
      } else {
        fromQ := true;
      }
      var e: Node<T>;
      if fromQ {
        e := q;
        GoalRest(done, xs, rest, qsize, le);
        TakeFromRest(done, xs, rest);
        q, qsize := q.next, qsize - 1;
        list, tail := Append(e, list, tail, done, xs, rest[1..]);
        done, rest := done + [e], rest[1..];
      } else {
        e := p;
        GoalRun(done, xs, rest, qsize, le);
        TakeFromRun(done, xs, rest);
        p, psize := p.next, psize - 1;
        list, tail := Append(e, list, tail, done, xs[1..], rest);
        done, xs := done + [e], xs[1..];
      }
    }
    GoalReached(done, xs, rest, qsize, le);
  }

  /** Step at most `insize` places along from `p`, counting them. */
  method StepAlong<T>(p: Node<T>, insize: nat, ghost nodes: seq<Node<T>>) returns (q: Node?<T>, psize: nat)
    requires insize > 0 && Linked(nodes) && nodes != [] && nodes[0] == p
    ensures psize == Min(insize, |nodes|) && q == First(nodes[psize..])
  {
    q, psize := p, 0;
    var i := 0;
    while i < insize
      invariant 0 <= i <= insize && psize == i && psize < |nodes| && q == nodes[psize]
    {
      psize := psize + 1;
      q := q.next;
      assert q == if psize < |nodes| then nodes[psize] else null;
      if q == null {
        return;
      }
      i := i + 1;
    }
  }

  /** One round of a pass: merge the next two runs onto the end of what is done. */
  method Round<T>(p: Node<T>, insize: nat, list0: Node?<T>, tail0: Node?<T>, le: Le<T>,
                  ghost all: set<Node<T>>, ghost done0: seq<Node<T>>, ghost left0: seq<Node<T>>)
    returns (q: Node?<T>, list: Node?<T>, tail: Node?<T>, ghost done: seq<Node<T>>, ghost left: seq<Node<T>>)
    requires insize > 0 && left0 != [] && p == left0[0] && list0 == First(done0) && tail0 == Last(done0)
    requires Heap(done0, [], left0) && Within(done0, all) && Within(left0, all)
    modifies all
    ensures Heap(done, [], left) && Within(done, all) && Within(left, all)
    ensures q == First(left) && list == First(done) && tail == Last(done)
    ensures done + Pass(left, insize, le) == done0 + Pass(left0, insize, le)
    ensures left == left0[Min(2 * insize, |left0|)..]
  {
    hide Goal, AfterRun, Pass;
    var psize;
    q, psize := StepAlong(p, insize, left0);
    ghost var xs, rest := left0[..psize], left0[psize..];
    CutRun(done0, left0, psize);
    NextRun(done0, left0, psize, insize, le);
    q, list, tail := MergePair(p, q, psize, insize, list0, tail0, le, all, done0, xs, rest);
    done, left := Goal(done0, xs, rest, insize, le), AfterRun(rest, insize);
  }

  /** One pass over the list; `nmerges` counts the merges it makes. */
  method PassOnce<T>(list0: Node<T>, insize: nat, le: Le<T>, ghost all: set<Node<T>>, ghost nodes: seq<Node<T>>)
    returns (list: Node?<T>, tail: Node?<T>, nmerges: nat)
    requires insize > 0 && nodes != [] && nodes[0] == list0 && Linked(nodes) && NoDup(nodes) && Within(nodes, all)
    modifies all
    ensures var out := Pass(nodes, insize, le);
            Chain(out) && NoDup(out) && Within(out, all) && list == First(out) && tail == Last(out)
    ensures nmerges <= 1 <==> |nodes| <= 2 * insize
  {
    hide Pass;
    var p: Node?<T> := list0;
    list, tail, nmerges := null, null, 0;
    ghost var done, left := [], nodes;
    PassNothing(insize, le);
    assert done + Pass(left, insize, le) == Pass(nodes, insize, le);
    while p != null
      invariant Heap(done, [], left) && Within(done, all) && Within(left, all)
      invariant p == First(left) && list == First(done) && tail == Last(done)
      invariant done + Pass(left, insize, le) == Pass(nodes, insize, le)
      invariant nmerges == 0 ==> left == nodes
      invariant nmerges == 1 ==> |left| == |nodes| - Min(2 * insize, |nodes|)
      invariant nmerges > 1 ==> |nodes| > 2 * insize
      decreases |left|
    {
      nmerges := nmerges + 1;
      p, list, tail, done, left := Round(p, insize, list, tail, le, all, done, left);
    }
    assert done + [] == done;
  }

  lemma PassNothing<T>(w: nat, le: Le<T>)
    requires w > 0
    ensures Pass([], w, le) == []
  {
  }

  lemma CutRun<T>(done: seq<Node<T>>, left: seq<Node<T>>, psize: nat)
    requires Heap(done, [], left) && psize <= |left|
    ensures Heap(done, left[..psize], left[psize..])
  {}

  /** The first round of a pass, and what it leaves for the others. */
  lemma NextRun<T>(done: seq<Node<T>>, left: seq<Node<T>>, psize: nat, insize: nat, le: Le<T>)
    requires insize > 0 && left != [] && psize == Min(insize, |left|)
    ensures AfterRun(left[psize..], insize) == left[Min(2 * insize, |left|)..]
    ensures done + Pass(left, insize, le) ==
            Goal(done, left[..psize], left[psize..], insize, le) + Pass(AfterRun(left[psize..], insize), insize, le)
  {
    var n := Min(2 * insize, |left|);
    assert Min(insize, |left[psize..]|) == n - psize;
    assert SecondRun(left[psize..], insize) == left[psize..n];
    assert AfterRun(left[psize..], insize) == left[n..];
    var head, tail := Merge(left[..psize], left[psize..n], le), Pass(left[n..], insize, le);
    assert Pass(left, insize, le) == head + tail;
    assert done + (head + tail) == (done + head) + tail;
  }

  lemma PassesStep<T>(s: seq<Node<T>>, w: nat, le: Le<T>)
    requires w > 0
    ensures Passes(s, w, le) == if |s| <= 2 * w then Pass(s, w, le) else Passes(Pass(s, w, le), 2 * w, le)
  {
  }

  /** Where a node stands in the list handed in. */
  ghost function Position<T>(nodes: seq<Node<T>>, n: Node<T>): int {
    if n in nodes then var k :| 0 <= k < |nodes| && nodes[k] == n; k else -1
  }

  ghost function Positions<T>(nodes: seq<Node<T>>): Rank<T> {
    (n: Node<T>) => Position(nodes, n)
  }

  /**
   The sort: for any comparison that is a total preorder, the result is the same nodes, linked in
   order and ending in null, with equal nodes in the order in which they stood.
   */
  method Sort<T(!new)>(list0: Node<T>, le: Le<T>, ghost nodes: seq<Node<T>>)
    returns (list: Node<T>, ghost out: seq<Node<T>>)
    requires TotalPreorder(le) && nodes != [] && nodes[0] == list0 && Linked(nodes) && NoDup(nodes)
    modifies nodes
    ensures Linked(out) && list == First(out)
    ensures multiset(out) == multiset(nodes) && InOrder(out, le, Positions(nodes))
  {
    hide InOrder, TotalPreorder, Passes, Pass;
    list, out := list0, nodes;
    ghost var all := set n | n in nodes;
    var insize := 1;
    while true
      invariant insize > 0 && out != [] && |out| == |nodes| && list == out[0]
      invariant Linked(out) && NoDup(out) && Within(out, all)
      invariant Passes(out, insize, le) == Passes(nodes, 1, le)
      decreases |nodes| - insize
    {
      var nmerges;
      PassesStep(out, insize, le);
      list, nmerges := ClosedPass(list, insize, le, all, out);
      out := Pass(out, insize, le);
      if nmerges <= 1 {
        SortedAndStable(nodes, le);
        return;
      }
      insize := insize * 2;
    }
  }

  /** A pass that closes the merged list with a null. */
  method ClosedPass<T>(list0: Node<T>, insize: nat, le: Le<T>, ghost all: set<Node<T>>, ghost nodes: seq<Node<T>>)
    returns (list: Node<T>, nmerges: nat)
    requires insize > 0 && nodes != [] && nodes[0] == list0 && Linked(nodes) && NoDup(nodes) && Within(nodes, all)
    modifies all
    ensures var out := Pass(nodes, insize, le);
            Linked(out) && NoDup(out) && Within(out, all) && |out| == |nodes| && list == First(out)
    ensures nmerges <= 1 <==> |nodes| <= 2 * insize
  {
    var head, tail;
    head, tail, nmerges := PassOnce(list0, insize, le, all, nodes);
    PassLength(nodes, insize, le);
    tail.next := null;
    list := head;
  }

  lemma SortedAndStable<T(!new)>(nodes: seq<Node<T>>, le: Le<T>)
    requires TotalPreorder(le) && NoDup(nodes)
    ensures InOrder(Passes(nodes, 1, le), le, Positions(nodes)) && multiset(Passes(nodes, 1, le)) == multiset(nodes)
  {
    SingletonRuns(nodes, le, Positions(nodes));
    PassesInOrder(nodes, 1, le, Positions(nodes));
  }
}
