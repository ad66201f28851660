/**
 The heap page allocator as it is written: the run counter starts at one, so a run one page too
 short is accepted, and the length is rounded up in 64 bits, so the largest lengths ask for no page.
 */
module PageAlloc {

  import opened Common

  const PAGE := 4096

  /**
   The page table.  `stat` has one flag per page and, behind the last page, the byte that follows
   the flag array in memory; `mark` is the counter written into the flags.
   */
  datatype Pages = Pages(stat: seq<nat>, total: nat, use: nat, mark: nat)

  datatype Outcome = Outcome(pages: Pages, result: int)

  predicate WellFormed(p: Pages) {
    |p.stat| == p.total + 1
  }

  /** The number of free pages from page `i` on. */
  function Run(stat: seq<nat>, total: nat, i: nat): (n: nat)
    requires i <= total <= |stat|
    ensures i + n <= total
    decreases total - i
  {
    if i == total || stat[i] != 0 then 0 else 1 + Run(stat, total, i + 1)
  }

  lemma RunFree(stat: seq<nat>, total: nat, i: nat)
    requires i <= total <= |stat|
    ensures forall k :: i <= k < i + Run(stat, total, i) ==> stat[k] == 0
    ensures i + Run(stat, total, i) < total ==> stat[i + Run(stat, total, i)] != 0
    decreases total - i
  {
    if i < total && stat[i] == 0 {
      RunFree(stat, total, i + 1);
    }
  }

  /** The first run, from page `i` on, that is accepted for `req` pages when `slack` is added to its length. */
  function Fit(stat: seq<nat>, total: nat, req: nat, slack: nat, i: nat): (r: Option<nat>)
    requires i <= total <= |stat|
    ensures r.Some? ==> i <= r.value < total && stat[r.value] == 0 && Run(stat, total, r.value) + slack >= req
    decreases total - i
  {
    if i == total then None
    else if stat[i] != 0 then Fit(stat, total, req, slack, i + 1)
    else
      var n := Run(stat, total, i);
      if n + slack >= req then Some(i) else Fit(stat, total, req, slack, Min(i + n + 1, total))
  }

  function SetFlags(stat: seq<nat>, i: nat, n: nat, v: nat): (t: seq<nat>)
    requires i + n <= |stat|
    ensures |t| == |stat| && forall k :: 0 <= k < |stat| ==> t[k] == if i <= k < i + n then v else stat[k]
  {
    stat[..i] + seq(n, _ => v) + stat[i + n..]
  }

  /** The counter skips the values whose low byte is 0. */
  function NextMark(m: nat): (r: nat)
    ensures r > m && r % 256 != 0
  {
    if (m + 1) % 256 == 0 then m + 2 else m + 1
  }

  /** The number of pages asked for, in 64-bit arithmetic. */
  function RequestedPages(length: nat): nat {
    (length + PAGE - 1) % MOD64 / PAGE
  }

  /** The table after `req` pages from page `i` on are taken. */
  function Taken(p: Pages, i: nat, req: nat): (t: Pages)
    requires i + req <= |p.stat|
  {
    Pages(SetFlags(p.stat, i, req, p.mark % 256), p.total, (p.use + req) % MOD64, NextMark(p.mark))
  }

  /** The first acceptable run is taken; -1 when there is none. */
  function Commit(p: Pages, req: nat, slack: nat): (r: Outcome)
    requires WellFormed(p) && slack <= 1
  {
    var i := Fit(p.stat, p.total, req, slack, 0);
    if i.None? then Outcome(p, -1)
    else Outcome(Taken(p, i.value, req), i.value)
  }

  /** Allocation; the code has `slack` 1, and counting from zero would make it 0. */
  function Alloc(p: Pages, length: nat, slack: nat): (r: Outcome)
    requires WellFormed(p) && slack <= 1
  {
    if length == 0 then Outcome(p, -EINVAL)
    else if RequestedPages(length) > (p.total - p.use) % MOD64 then Outcome(p, -ENOMEM)
    else Commit(p, RequestedPages(length), slack)
  }

  /** The number of pages released: rounded down, with one more when the address is not aligned. */
  function FreedPages(addr: int, length: nat): nat {
    length / PAGE + (if addr % PAGE != 0 then 1 else 0)
  }

  predicate Refused(p: Pages, addr: int, length: nat) {
    length == 0 || addr < 0 || p.total * PAGE <= addr
  }

  /** A release must not reach past the flags. */
  predicate FreeInBounds(p: Pages, addr: int, length: nat) {
    Refused(p, addr, length) || addr / PAGE + FreedPages(addr, length) <= p.total + 1
  }

  /** Release of `length` bytes at byte `addr` of the heap; a negative offset lies below the heap. */
  function Free(p: Pages, addr: int, length: nat): (r: Outcome)
    requires WellFormed(p) && FreeInBounds(p, addr, length)
  {
    if Refused(p, addr, length) then Outcome(p, -EINVAL)
    else
      var n := FreedPages(addr, length);
      Outcome(p.(stat := SetFlags(p.stat, addr / PAGE, n, 0), use := (p.use - n) % MOD64), 0)
  }

  // ----- the code ---------------------------------------------------------------------------

  class MemNode {
    const stat: array<nat>
    const total: nat
    var use: nat
    var mark: nat

    ghost function View(): Pages
      reads this, stat
    {
      Pages(stat[..], total, use, mark)
    }

    constructor (total: nat)
      ensures fresh(stat) && View() == Pages(seq(total + 1, _ => 0), total, 0, 1)
    {
      this.total := total;
      stat := new nat[total + 1](_ => 0);
      use, mark := 0, 1;
      new;
      assert stat[..] == seq(total + 1, _ => 0);
    }

    /** The counter starts at 1: the result is one more than the run, between 1 and the limit. */
    method CountContiguous(off: nat, lim: nat) returns (r: nat)
      requires WellFormed(View()) && off <= total
      ensures r == Max(1, Min(Run(stat[..], total, off) + 1, lim))
    {
      r := 1;
      var i := off;
      while i < total
        invariant off <= i <= total && r == 1 + (i - off)
        invariant Run(stat[..], total, off) == (i - off) + Run(stat[..], total, i)
        invariant r == 1 || r <= lim
      {
        if stat[i] != 0 || r >= lim {
          break;
        }
        i, r := i + 1, r + 1;
      }
    }

    method SetPageFlag(off: nat, n: nat, val: nat)
      requires off + n <= stat.Length
      modifies stat
      ensures stat[..] == SetFlags(old(stat[..]), off, n, val)
    {
      var i := off;
      while i < off + n
        invariant off <= i <= off + n
        invariant forall k :: 0 <= k < stat.Length ==> stat[k] == if off <= k < i then val else old(stat[k])
      {
        stat[i] := val;
        i := i + 1;
      }
    }

    /** Marks the pages and moves the counter on. */
    method Take(i: nat, req: nat)
      requires i + req <= stat.Length
      modifies this, stat
      ensures View() == Taken(old(View()), i, req)
    {
      SetPageFlag(i, req, mark % 256);
      use := (use + req) % MOD64;
      mark := mark + 1;
      if mark % 256 == 0 {
        mark := mark + 1;
      }
    }

    /** The scan of the page flags. */
    method FindAndTake(req: nat) returns (r: int)
      requires WellFormed(View())
      modifies this, stat
      ensures Outcome(View(), r) == Commit(old(View()), req, 1)
    {
      ghost var s := stat[..];
      var i := 0;
      while i < total
        invariant 0 <= i <= total + 1
        invariant View() == old(View())
        invariant Fit(s, total, req, 1, 0) == Fit(s, total, req, 1, Min(i, total))
        decreases total + 1 - i
      {
        if stat[i] != 0 {
          i := i + 1;
          continue;
        }
        var cnt := CountContiguous(i, req);
        assert s[i] == 0 && Run(s, total, i) >= 1;
        if cnt >= req {
          Take(i, req);
          return i;
        }
        assert cnt == Run(s, total, i) + 1;
        i := i + cnt;
      }
      r := -1;
    }

    method AllocPages(length: nat) returns (r: int)
      requires WellFormed(View())
      modifies this, stat
      ensures Outcome(View(), r) == Alloc(old(View()), length, 1)
    {
      if length == 0 {
        return -EINVAL;
      }
      var req := RequestedPages(length);
      if req > (total - use) % MOD64 {
        return -ENOMEM;
      }
      r := FindAndTake(req);
    }

    method FreePages(addr: int, length: nat) returns (r: int)
      requires WellFormed(View()) && FreeInBounds(View(), addr, length)
      modifies this, stat
      ensures Outcome(View(), r) == Free(old(View()), addr, length)
    {
      if length == 0 {
        return -EINVAL;
      }
      if addr < 0 || total * PAGE <= addr {
        return -EINVAL;
      }
      var off := addr / PAGE;
      var n := length / PAGE;
      if addr % PAGE != 0 {
        n := n + 1;
      }
      SetPageFlag(off, n, 0);
      use := (use - n) % MOD64;
      r := 0;
    }
  }
}
