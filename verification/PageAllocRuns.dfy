/**
 Safety of the page allocator over every sequence of calls: what a run of allocations and releases
 keeps, exactly when one allocation breaks it, and how much counting from zero would mend.
 */
module PageAllocRuns {

  import opened Common
  import opened PageAlloc

  /** Allocated pages `start` to `start + n - 1`. */
  datatype Block = Block(start: nat, n: nat)

  predicate Covers(b: Block, k: int) {
    b.start <= k < b.start + b.n
  }

  /** The number of marked pages among the first `n`. */
  function Used(stat: seq<nat>, n: nat): (c: nat)
    requires n <= |stat|
    ensures c <= n
  {
    if n == 0 then 0 else Used(stat, n - 1) + (if stat[n - 1] != 0 then 1 else 0)
  }

  /** Live blocks lie in the heap and do not overlap. */
  ghost predicate Apart(total: nat, live: set<Block>) {
    && (forall b :: b in live ==> 1 <= b.n && b.start + b.n <= total)
    && (forall b, c, k :: b in live && c in live && Covers(b, k) && Covers(c, k) ==> b == c)
  }

  /** A page is marked exactly when a live block covers it. */
  ghost predicate Marked(stat: seq<nat>, total: nat, live: set<Block>)
    requires total <= |stat|
  {
    forall k :: 0 <= k < total ==> (stat[k] != 0 <==> exists b :: b in live && Covers(b, k))
  }

  ghost predicate Inv(p: Pages, live: set<Block>) {
    && WellFormed(p) && p.total * PAGE < MOD64
    && Apart(p.total, live)
    && Marked(p.stat, p.total, live)
    && p.use == Used(p.stat, p.total)
    && p.mark % 256 != 0
  }

  // ----- which run is taken -----------------------------------------------------------------

  /** A run that is free at `j` and accepted for `req` pages. */
  predicate Accepts(stat: seq<nat>, total: nat, req: nat, slack: nat, j: int)
    requires total <= |stat|
  {
    0 <= j < total && stat[j] == 0 && Run(stat, total, j) + slack >= req
  }

  lemma RunInside(stat: seq<nat>, total: nat, i: nat, j: nat)
    requires i <= j <= total <= |stat| && j <= i + Run(stat, total, i)
    ensures i + Run(stat, total, i) == j + Run(stat, total, j)
    decreases total - i
  {
    if i < j {
      RunInside(stat, total, i + 1, j);
    }
  }

  lemma NoneInside(stat: seq<nat>, total: nat, req: nat, slack: nat, i: nat)
    requires i < total <= |stat| && Run(stat, total, i) + slack < req
    ensures forall j :: i <= j <= i + Run(stat, total, i) ==> !Accepts(stat, total, req, slack, j)
    ensures i + Run(stat, total, i) < total ==> stat[i + Run(stat, total, i)] != 0
  {
    RunFree(stat, total, i);
    forall j | i <= j <= i + Run(stat, total, i)
      ensures !Accepts(stat, total, req, slack, j)
    {
      RunInside(stat, total, i, j);
    }
  }

  /** The scan takes the first accepted run, from its start; it finds none only when there is none. */
  lemma {:induction false} FitIsFirst(stat: seq<nat>, total: nat, req: nat, slack: nat, i: nat)
    requires i <= total <= |stat| && (i == 0 || i == total || stat[i - 1] != 0)
    ensures Fit(stat, total, req, slack, i).None? <==> forall j :: i <= j ==> !Accepts(stat, total, req, slack, j)
    ensures Fit(stat, total, req, slack, i).Some? ==>
              var r := Fit(stat, total, req, slack, i).value;
              && Accepts(stat, total, req, slack, r) && (r == 0 || stat[r - 1] != 0)
              && forall j :: i <= j < r ==> !Accepts(stat, total, req, slack, j)
    decreases total - i
  {
    hide Run;
    if i == total {
    } else if stat[i] != 0 {
      FitIsFirst(stat, total, req, slack, i + 1);
    } else {
      var n := Run(stat, total, i);
      if n + slack >= req {
        assert Accepts(stat, total, req, slack, i);
      } else {
        NoneInside(stat, total, req, slack, i);
        FitIsFirst(stat, total, req, slack, Min(i + n + 1, total));
      }
    }
  }

  // ----- counting ---------------------------------------------------------------------------

  /** How many of the first `m` pages lie among the `n` pages from `i` on. */
  function Overlap(i: nat, n: nat, m: nat): nat {
    if m <= i then 0 else Min(m - i, n)
  }

  /** Marking free pages, or clearing marked ones, changes the count by their number. */
  lemma UsedChanges(stat: seq<nat>, i: nat, n: nat, v: nat, m: nat)
    requires i + n <= |stat| && m <= |stat|
    requires forall k :: i <= k < i + n ==> (stat[k] == 0) != (v == 0)
    ensures Used(SetFlags(stat, i, n, v), m) == Used(stat, m) + (if v == 0 then -1 else 1) * Overlap(i, n, m)
  {
    if m > 0 {
      UsedChanges(stat, i, n, v, m - 1);
    }
  }

  // ----- one call ---------------------------------------------------------------------------

  /** The pages that hold `length` bytes. */
  function PagesFor(length: nat): nat {
    (length + PAGE - 1) / PAGE
  }

  /** The live blocks after an allocation of `length` bytes answered `result`: the caller uses all of them. */
  function Gained(live: set<Block>, result: int, length: nat): set<Block> {
    if result < 0 then live else live + {Block(result, PagesFor(length))}
  }

  lemma TakeApart(stat: seq<nat>, total: nat, live: set<Block>, i: nat, n: nat)
    requires total < |stat| && i + n <= total && n > 0
    requires Apart(total, live) && Marked(stat, total, live)
    requires forall k :: i <= k < i + n ==> stat[k] == 0
    ensures Apart(total, live + {Block(i, n)}) && Block(i, n) !in live
  {
    forall b, k | b in live && Covers(b, k)
      ensures !Covers(Block(i, n), k)
    {
      assert stat[k] != 0;
    }
    assert Covers(Block(i, n), i);
  }

  lemma TakeMarked(stat: seq<nat>, total: nat, live: set<Block>, i: nat, n: nat, v: nat)
    requires total < |stat| && i + n <= total && v != 0
    requires Marked(stat, total, live)
    ensures Marked(SetFlags(stat, i, n, v), total, live + {Block(i, n)})
  {
    var t, more := SetFlags(stat, i, n, v), live + {Block(i, n)};
    forall k | 0 <= k < total
      ensures t[k] != 0 <==> exists b :: b in more && Covers(b, k)
    {
      if Covers(Block(i, n), k) {
        assert Block(i, n) in more;
      } else if stat[k] != 0 {
        var b :| b in live && Covers(b, k);
        assert b in more;
      }
    }
  }

  lemma TakeKeeps(p: Pages, live: set<Block>, i: nat, n: nat)
    requires Inv(p, live) && i + n <= p.total && n > 0
    requires forall k :: i <= k < i + n ==> p.stat[k] == 0
    ensures Inv(Taken(p, i, n), live + {Block(i, n)}) && Block(i, n) !in live
  {
    TakeApart(p.stat, p.total, live, i, n);
    TakeMarked(p.stat, p.total, live, i, n, p.mark % 256);
    UsedChanges(p.stat, i, n, p.mark % 256, p.total);
    assert Used(Taken(p, i, n).stat, p.total) <= p.total;
  }

  /** A run one page short: the block would reach past the heap or into another live block. */
  lemma ShortRunOverlaps(p: Pages, live: set<Block>, i: nat, n: nat)
    requires Inv(p, live) && i < p.total && p.stat[i] == 0 && Run(p.stat, p.total, i) == n - 1
    ensures !Apart(p.total, live + {Block(i, n)})
  {
    var last := i + n - 1;
    RunFree(p.stat, p.total, i);
    if last < p.total {
      var c :| c in live && Covers(c, last);
      assert Covers(Block(i, n), last);
      assert Covers(Block(i, n), i) && !Covers(c, i);
    } else {
      assert Block(i, n) in live + {Block(i, n)};
    }
  }

  // ----- exactly when an allocation goes wrong ------------------------------------------------

  /** The run that the scan takes for `req` pages: the first that is accepted. */
  ghost predicate FirstAccepted(p: Pages, req: nat, slack: nat, i: nat)
    requires WellFormed(p)
  {
    && Accepts(p.stat, p.total, req, slack, i)
    && forall j :: 0 <= j < i ==> !Accepts(p.stat, p.total, req, slack, j)
  }

  /** Rounding the length up overflows, so that no page is asked for. */
  predicate Wraps(length: nat) {
    length + PAGE - 1 >= MOD64
  }

  /**
   The two ways an allocation goes wrong: the length overflows and some page is free, or there are
   enough free pages and the first accepted run is one page too short.
   */
  ghost predicate Harmful(p: Pages, length: nat, slack: nat)
    requires WellFormed(p)
  {
    if Wraps(length) then exists i :: 0 <= i < p.total && p.stat[i] == 0
    else
      && 0 < length && PagesFor(length) <= p.total - p.use
      && exists i: nat :: FirstAccepted(p, PagesFor(length), slack, i)
                          && Run(p.stat, p.total, i) == PagesFor(length) - 1
  }

  lemma Requested(length: nat)
    requires length < MOD64
    ensures RequestedPages(length) == if Wraps(length) then 0 else PagesFor(length)
    ensures length > 0 ==> PagesFor(length) > 0
    ensures Wraps(length) ==> PagesFor(length) * PAGE >= MOD64
    ensures length > 0 ==> (PagesFor(length) - 1) * 4096 < length <= PagesFor(length) * 4096
  {
  }

  lemma Available(p: Pages, live: set<Block>)
    requires Inv(p, live)
    ensures 0 <= p.total - p.use && (p.total - p.use) % MOD64 == p.total - p.use
  {
  }

  /** What an allocation answers, by the state before it. */
  lemma Answer(p: Pages, live: set<Block>, length: nat, slack: nat)
    requires Inv(p, live) && slack <= 1 && length < MOD64
    ensures var i := Alloc(p, length, slack).result;
            var req := RequestedPages(length);
            if i >= 0 then
              && 0 < length && req <= p.total - p.use && FirstAccepted(p, req, slack, i)
              && Alloc(p, length, slack).pages == Taken(p, i, req)
            else
              && Alloc(p, length, slack).pages == p
              && i == (if length == 0 then -22 else if req > p.total - p.use then -12 else -1)
              && (0 < length && req <= p.total - p.use ==>
                    forall j :: !Accepts(p.stat, p.total, req, slack, j))
  {
    UsedPages(p, live);
    hide Accepts, Inv, Fit, RequestedPages, Taken;
    Available(p, live);
    FitIsFirst(p.stat, p.total, RequestedPages(length), slack, 0);
    NoneBelow(p, RequestedPages(length), slack);
  }

  lemma NoneBelow(p: Pages, req: nat, slack: nat)
    requires WellFormed(p)
    ensures forall j :: j < 0 ==> !Accepts(p.stat, p.total, req, slack, j)
  {
  }

  /** A block for a length that overflows is larger than the heap. */
  lemma WrappedTooLarge(p: Pages, live: set<Block>, length: nat, i: nat)
    requires Inv(p, live) && Wraps(length) && length < MOD64
    ensures !Apart(p.total, live + {Block(i, PagesFor(length))})
  {
    Requested(length);
    assert Block(i, PagesFor(length)) in live + {Block(i, PagesFor(length))};
  }

  lemma TakeKeepsIff(p: Pages, live: set<Block>, i: nat, req: nat)
    requires Inv(p, live) && i < p.total && p.stat[i] == 0 && Run(p.stat, p.total, i) >= req - 1 && req > 0
    ensures Inv(Taken(p, i, req), live + {Block(i, req)}) <==> Run(p.stat, p.total, i) != req - 1
  {
    if Run(p.stat, p.total, i) == req - 1 {
      ShortRunOverlaps(p, live, i, req);
    } else {
      RunFree(p.stat, p.total, i);
      TakeKeeps(p, live, i, req);
    }
  }

  /**
   An allocation keeps the heap consistent, with a block for all bytes asked for, if and only if the
   length does not overflow while a page is free and the run it takes is not one page too short.
   With the count started at zero only the overflow remains.
   */
  lemma AllocKeepsIff(p: Pages, live: set<Block>, length: nat, slack: nat)
    requires Inv(p, live) && slack <= 1 && length < MOD64
    ensures var o := Alloc(p, length, slack);
            Inv(o.pages, Gained(live, o.result, length)) <==> !Harmful(p, length, slack)
    ensures slack == 0 && Harmful(p, length, slack) ==> Wraps(length)
  {
    UsedPages(p, live);
    hide Inv, Run, Alloc;
    var o := Alloc(p, length, slack);
    var req := RequestedPages(length);
    Answer(p, live, length, slack);
    Requested(length);
    if Wraps(length) {
      if o.result >= 0 {
        WrappedTooLarge(p, live, length, o.result);
        NotApart(o.pages, p.total, Gained(live, o.result, length));
      } else {
        Available(p, live);
        forall j | 0 <= j < p.total
          ensures p.stat[j] != 0
        {
          assert !Accepts(p.stat, p.total, 0, slack, j);
        }
      }
    } else if o.result >= 0 {
      TakeKeepsIff(p, live, o.result, req);
    }
  }

  lemma NotApart(p: Pages, total: nat, live: set<Block>)
    requires !Apart(total, live) && p.total == total
    ensures !Inv(p, live)
  {
  }

  /**
   What a release answers and clears: one flag for each whole page of its length and one more for an address
   inside a page; nothing, with -22, for no bytes or an address outside the heap.
   */
  lemma FreeAnswer(p: Pages, addr: int, length: nat)
    requires WellFormed(p) && FreeInBounds(p, addr, length)
    ensures var o := Free(p, addr, length);
            var n := length / 4096 + (if addr % 4096 == 0 then 0 else 1);
            if length == 0 || addr < 0 || addr >= 4096 * p.total then o == Outcome(p, -22)
            else
              && o.result == 0 && o.pages.total == p.total && o.pages.mark == p.mark
              && (o.pages.use + n - p.use) % MOD64 == 0 && 0 <= o.pages.use < MOD64
              && |o.pages.stat| == |p.stat|
              && forall k :: 0 <= k < |p.stat| ==>
                   o.pages.stat[k] == if addr / 4096 <= k < addr / 4096 + n then 0 else p.stat[k]
  {
  }

  lemma FreeMarked(stat: seq<nat>, total: nat, live: set<Block>, b: Block)
    requires total < |stat| && b in live
    requires Apart(total, live) && Marked(stat, total, live)
    ensures Marked(SetFlags(stat, b.start, b.n, 0), total, live - {b})
    ensures forall k :: Covers(b, k) ==> stat[k] != 0
  {
    var t := SetFlags(stat, b.start, b.n, 0);
    forall k | 0 <= k < total
      ensures t[k] != 0 <==> exists c :: c in live - {b} && Covers(c, k)
    {
      if stat[k] != 0 && !Covers(b, k) {
        var c :| c in live && Covers(c, k);
        assert c in live - {b};
      }
    }
  }

  /** Releasing all pages of a live block succeeds and leaves the others as they were. */
  lemma FreeKeeps(p: Pages, live: set<Block>, b: Block)
    requires Inv(p, live) && b in live
    ensures FreeInBounds(p, b.start * PAGE, b.n * PAGE)
    ensures Free(p, b.start * PAGE, b.n * PAGE).result == 0
    ensures Inv(Free(p, b.start * PAGE, b.n * PAGE).pages, live - {b})
  {
    hide Used, SetFlags, Marked;
    FreeMarked(p.stat, p.total, live, b);
    UsedChanges(p.stat, b.start, b.n, 0, p.total);
  }

  lemma Rounding(length: nat)
    requires 0 < length <= MOD64 - PAGE
    ensures 0 < RequestedPages(length) && length / PAGE <= RequestedPages(length)
    ensures length / PAGE == RequestedPages(length) <==> length % PAGE == 0
  {
  }

  lemma MarkThenClear(stat: seq<nat>, i: nat, n: nat, m: nat, v: nat)
    requires i + n <= |stat| && m <= n && v != 0
    requires forall k :: i <= k < i + n ==> stat[k] == 0
    ensures SetFlags(SetFlags(stat, i, n, v), i, m, 0) == stat <==> m == n
  {
    var t := SetFlags(SetFlags(stat, i, n, v), i, m, 0);
    if m < n {
      assert t[i + m] == v;
    }
  }

  lemma TakeFreeRestoresIff(p: Pages, i: nat, n: nat, length: nat)
    requires WellFormed(p) && p.mark % 256 != 0 && p.use + n < MOD64
    requires 0 < n && i + n <= p.total && length / PAGE <= n && length > 0
    requires forall k :: i <= k < i + n ==> p.stat[k] == 0
    ensures FreeInBounds(Taken(p, i, n), i * PAGE, length)
    ensures var f := Free(Taken(p, i, n), i * PAGE, length).pages;
            (f.stat == p.stat && f.use == p.use) <==> length / PAGE == n
  {
    MarkThenClear(p.stat, i, n, length / PAGE, p.mark % 256);
  }

  /**
   Allocating and then releasing the same length gives the table back if and only if the length
   is a whole number of pages: allocation rounds up and release rounds down.
   */
  lemma AllocFreeRestoresIff(p: Pages, live: set<Block>, length: nat)
    requires Inv(p, live) && 0 < length < MOD64
    requires Alloc(p, length, 1).result >= 0 && !Harmful(p, length, 1)
    ensures var o := Alloc(p, length, 1);
            && FreeInBounds(o.pages, o.result * PAGE, length)
            && var f := Free(o.pages, o.result * PAGE, length).pages;
            (f.stat == p.stat && f.use == p.use) <==> length % PAGE == 0
  {
    var o := Alloc(p, length, 1);
    RunLongEnough(p, live, length, 1);
    Rounding(length);
    UsedPages(p, live);
    hide Inv, Alloc, Free, Taken, Harmful, FreeInBounds;
    TakeFreeRestoresIff(p, o.result, RequestedPages(length), length);
  }

  /** An allocation that is not harmful takes a run of free pages for all bytes asked for. */
  lemma RunLongEnough(p: Pages, live: set<Block>, length: nat, slack: nat)
    requires Inv(p, live) && slack <= 1 && length < MOD64 && !Harmful(p, length, slack)
    ensures var o := Alloc(p, length, slack);
            var req := RequestedPages(length);
            o.result >= 0 ==>
              && !Wraps(length) && req == PagesFor(length) > 0 && o.result + req <= p.total
              && req <= p.total - p.use && o.pages == Taken(p, o.result, req)
              && forall k :: o.result <= k < o.result + req ==> p.stat[k] == 0
  {
    hide Alloc, Taken, RequestedPages, Fit;
    Answer(p, live, length, slack);
    Requested(length);
    var i := Alloc(p, length, slack).result;
    if i >= 0 {
      RunFree(p.stat, p.total, i);
    }
  }

  lemma UsedPages(p: Pages, live: set<Block>)
    requires Inv(p, live)
    ensures WellFormed(p) && p.mark % 256 != 0 && p.total < MOD64
  {
  }

  // ----- every run --------------------------------------------------------------------------

  datatype Op = Get(length: nat) | Put(block: Block)

  datatype Heap = Heap(pages: Pages, live: set<Block>)

  /** An allocation that is not harmful, or the release of all of a live block. */
  ghost predicate Careful(h: Heap, op: Op, slack: nat) {
    && WellFormed(h.pages) && slack <= 1
    && match op
       case Get(length) => length < MOD64 && !Harmful(h.pages, length, slack)
       case Put(b) => b in h.live && FreeInBounds(h.pages, b.start * PAGE, b.n * PAGE)
  }

  ghost function After(h: Heap, op: Op, slack: nat): Heap
    requires Careful(h, op, slack)
  {
    match op
    case Get(length) =>
      var o := Alloc(h.pages, length, slack);
      Heap(o.pages, Gained(h.live, o.result, length))
    case Put(b) => Heap(Free(h.pages, b.start * PAGE, b.n * PAGE).pages, h.live - {b})
  }

  /** `t` is reached from `h` by the calls `ops`. */
  ghost predicate Reaches(h: Heap, ops: seq<Op>, slack: nat, t: Heap)
    decreases |ops|
  {
    if ops == [] then t == h
    else Careful(h, ops[0], slack) && Reaches(After(h, ops[0], slack), ops[1..], slack, t)
  }

  lemma StepKeeps(h: Heap, op: Op, slack: nat)
    requires Inv(h.pages, h.live) && Careful(h, op, slack)
    ensures var t := After(h, op, slack);
            Inv(t.pages, t.live) && t.pages.total == h.pages.total
  {
    match op
    case Get(length) => AllocKeepsIff(h.pages, h.live, length, slack);
    case Put(b) => FreeKeeps(h.pages, h.live, b);
  }

  /** The byte behind the flags is not written. */
  lemma StepStaysInside(h: Heap, op: Op, slack: nat)
    requires Inv(h.pages, h.live) && Careful(h, op, slack)
    ensures After(h, op, slack).pages.stat[h.pages.total] == h.pages.stat[h.pages.total]
  {
    match op
    case Get(length) =>
      RunLongEnough(h.pages, h.live, length, slack);
      Answer(h.pages, h.live, length, slack);
    case Put(b) =>
  }

  /**
   In every run of such calls live blocks stay in the heap and apart, a page is marked exactly when
   it is live, the use count is the number of marked pages, the next mark is never stored as 0, and
   nothing behind the flags is written.  With `slack` 0, the count started at zero, an allocation
   is harmful only when its length overflows.
   */
  lemma {:induction false} RunKeeps(h: Heap, ops: seq<Op>, slack: nat, t: Heap)
    requires Inv(h.pages, h.live) && Reaches(h, ops, slack, t)
    ensures Inv(t.pages, t.live) && t.pages.total == h.pages.total
    ensures t.pages.stat[t.pages.total] == h.pages.stat[h.pages.total]
    decreases |ops|
  {
    if ops != [] {
      StepKeeps(h, ops[0], slack);
      StepStaysInside(h, ops[0], slack);
      RunKeeps(After(h, ops[0], slack), ops[1..], slack, t);
    }
  }

  /** The heap as it is set up. */
  lemma BootInv(total: nat)
    requires total * PAGE < MOD64
    ensures Inv(Pages(seq(total + 1, _ => 0), total, 0, 1), {})
  {
    NoneUsed(seq(total + 1, _ => 0), total);
  }

  /** Every run from the heap as it is set up. */
  lemma BootedRun(total: nat, ops: seq<Op>, slack: nat, t: Heap)
    requires total * PAGE < MOD64
    requires Reaches(Heap(Pages(seq(total + 1, _ => 0), total, 0, 1), {}), ops, slack, t)
    ensures Inv(t.pages, t.live) && t.pages.total == total && t.pages.stat[total] == 0
  {
    BootInv(total);
    RunKeeps(Heap(Pages(seq(total + 1, _ => 0), total, 0, 1), {}), ops, slack, t);
  }

  lemma NoneUsed(stat: seq<nat>, n: nat)
    requires n <= |stat| && forall k :: 0 <= k < n ==> stat[k] == 0
    ensures Used(stat, n) == 0
  {
  }

  // ----- the two failures, from the heap as it is set up ---------------------------------------

  /** The heap of three pages as it is set up, and after two pages were taken and the first released. */
  const EMPTY_HEAP := Heap(Pages([0, 0, 0, 0], 3, 0, 1), {})
  const ONE_TAKEN := Heap(Pages([1, 0, 0, 0], 3, 1, 2), {Block(0, 1)})
  const TWO_TAKEN := Heap(Pages([1, 2, 0, 0], 3, 2, 3), {Block(0, 1), Block(1, 1)})
  const SPLIT := Heap(Pages([0, 2, 0, 0], 3, 1, 3), {Block(1, 1)})

  /** A single page is never taken from a run that is too short. */
  lemma OnePageHarmless(p: Pages)
    requires WellFormed(p)
    ensures !Harmful(p, PAGE, 1)
  {
    assert PagesFor(PAGE) == 1;
  }

  lemma FirstGet()
    ensures Careful(EMPTY_HEAP, Get(PAGE), 1) && After(EMPTY_HEAP, Get(PAGE), 1) == ONE_TAKEN
  {
    OnePageHarmless(EMPTY_HEAP.pages);
    hide Harmful;
    assert Run(EMPTY_HEAP.pages.stat, 3, 0) >= 1;
  }

  lemma SecondGet()
    ensures Careful(ONE_TAKEN, Get(PAGE), 1) && After(ONE_TAKEN, Get(PAGE), 1) == TWO_TAKEN
  {
    OnePageHarmless(ONE_TAKEN.pages);
    hide Harmful;
    assert Run(ONE_TAKEN.pages.stat, 3, 1) >= 1;
  }

  lemma FirstPut()
    ensures Careful(TWO_TAKEN, Put(Block(0, 1)), 1) && After(TWO_TAKEN, Put(Block(0, 1)), 1) == SPLIT
  {
    assert {Block(0, 1), Block(1, 1)} - {Block(0, 1)} == {Block(1, 1)};
  }

  lemma SplitReached()
    ensures Reaches(EMPTY_HEAP, [Get(PAGE), Get(PAGE), Put(Block(0, 1))], 1, SPLIT)
  {
    hide Careful, After;
    FirstGet();
    SecondGet();
    FirstPut();
    assert Reaches(SPLIT, [], 1, SPLIT);
    assert Reaches(TWO_TAKEN, [Put(Block(0, 1))], 1, SPLIT);
    assert [Get(PAGE), Put(Block(0, 1))][1..] == [Put(Block(0, 1))];
    assert Reaches(ONE_TAKEN, [Get(PAGE), Put(Block(0, 1))], 1, SPLIT);
    assert [Get(PAGE), Get(PAGE), Put(Block(0, 1))][1..] == [Get(PAGE), Put(Block(0, 1))];
  }

  /**
   Two pages are given from a free run of one in a heap that careful calls reach; the second belongs to a live
   block.
   */
  lemma ShortRunTaken()
    ensures EMPTY_HEAP.pages.stat == seq(4, _ => 0)
    ensures Reaches(EMPTY_HEAP, [Get(PAGE), Get(PAGE), Put(Block(0, 1))], 1, SPLIT)
    ensures Alloc(SPLIT.pages, 2 * PAGE, 1).result == 0
    ensures Alloc(SPLIT.pages, 2 * PAGE, 1).pages.stat == [3, 3, 0, 0]
    ensures Alloc(SPLIT.pages, 2 * PAGE, 0).result == -1
  {
    SplitReached();
    hide Reaches;
    var s := SPLIT.pages.stat;
    assert Run(s, 3, 2) == 1 && Run(s, 3, 1) == 0 && Run(s, 3, 0) == 1;
  }

  /** On the heap as it is set up, a length just below 2^64 is granted at page 0 with no page marked. */
  lemma WrappedLengthGranted()
    ensures Alloc(EMPTY_HEAP.pages, MOD64 - 1, 1).result == 0
    ensures Alloc(EMPTY_HEAP.pages, MOD64 - 1, 1).pages.stat == EMPTY_HEAP.pages.stat
    ensures Harmful(EMPTY_HEAP.pages, MOD64 - 1, 1)
  {
    assert EMPTY_HEAP.pages.stat[0] == 0;
  }
}
