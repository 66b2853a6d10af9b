/** The per-CPU physical page allocator of kernel/kalloc.c. Each CPU owns a
    free list (head first) and a count; `cpuid()` is an explicit `cpu`
    parameter, and `end`/`PHYSTOP` come in as a `Layout`. Spinlocks and
    push_off/pop_off are removed: each operation is one atomic step. */
module PageAllocator {
  import opened Wrappers

  const PGSIZE: nat := 4096

  /** `struct kmem_t` without its lock: the free pages, head first, and `size`. */
  datatype Pool = Pool(freelist: seq<nat>, size: int)

  /** `end` (first address after the kernel image, so never 0) and
      PHYSTOP. */
  datatype Layout = Layout(end: nat, phystop: nat)

  datatype Fault =
    | BadFree        // panic("kfree")
    | StealFromSelf  // panic("stealfrom self")
    | ThiefNotEmpty  // panic("stealfrom dstcpu rests")

  ghost predicate Counted(p: Pool) {
    p.size == |p.freelist|
  }

  /** Every pool's `size` is the length of its free list. */
  ghost predicate Inv(pools: seq<Pool>) {
    forall i | 0 <= i < |pools| :: Counted(pools[i])
  }

  ghost predicate AllEmpty(pools: seq<Pool>) {
    forall i | 0 <= i < |pools| :: pools[i].size == 0
  }

  /** All free pages of all pools, with multiplicity. */
  ghost function FreePages(pools: seq<Pool>): multiset<nat> {
    FreePagesBelow(pools, |pools|)
  }

  /** The free pages of the first `n` pools. */
  ghost function FreePagesBelow(pools: seq<Pool>, n: nat): multiset<nat>
    requires n <= |pools|
  {
    if n == 0 then multiset{} else FreePagesBelow(pools, n - 1) + multiset(pools[n - 1].freelist)
  }

  /** Replacing one pool swaps that pool's pages in the total. */
  lemma FreePagesUpdate(pools: seq<Pool>, i: nat, p: Pool)
    requires i < |pools|
    ensures FreePages(pools[i := p]) + multiset(pools[i].freelist) == FreePages(pools) + multiset(p.freelist)
  {
    FreePagesBelowSwap(pools, i, p, |pools|);
  }

  /** Pools from `i` on do not contribute to the first `i`. */
  lemma {:induction false} FreePagesBelowPrefix(pools: seq<Pool>, i: nat, p: Pool, n: nat)
    requires n <= i < |pools|
    ensures FreePagesBelow(pools[i := p], n) == FreePagesBelow(pools, n)
  {
    if n > 0 {
      FreePagesBelowPrefix(pools, i, p, n - 1);
      assert pools[i := p][n - 1] == pools[n - 1];
    }
  }

  /** Among the first `n` pools, which include pool `i`, replacing pool `i`
      swaps its pages in the running total. */
  lemma {:induction false} FreePagesBelowSwap(pools: seq<Pool>, i: nat, p: Pool, n: nat)
    requires i < n <= |pools|
    ensures FreePagesBelow(pools[i := p], n) + multiset(pools[i].freelist) == FreePagesBelow(pools, n) + multiset(p.freelist)
  {
    var q := pools[i := p];
    var was, now := multiset(pools[i].freelist), multiset(p.freelist);
    if n - 1 == i {
      FreePagesBelowPrefix(pools, i, p, n - 1);
      assert q[n - 1] == p;
      Rotate(FreePagesBelow(pools, n - 1), now, was);
    } else {
      FreePagesBelowSwap(pools, i, p, n - 1);
      assert q[n - 1] == pools[n - 1];
      var c := multiset(pools[n - 1].freelist);
      Rotate(FreePagesBelow(q, n - 1), c, was);
      Rotate(FreePagesBelow(pools, n - 1), c, now);
    }
  }

  /** Multiset union commutes past its first operand. */
  lemma Rotate(a: multiset<nat>, b: multiset<nat>, c: multiset<nat>)
    ensures a + b + c == a + c + b
  {
  }

  lemma Cancel(a: multiset<nat>, b: multiset<nat>, x: multiset<nat>)
    requires a + x == b + x
    ensures a == b
  {
    forall e ensures a[e] == b[e] {
      assert (a + x)[e] == (b + x)[e];
    }
  }

  /** The address check of kfree. */
  predicate BadAddress(layout: Layout, pa: nat) {
    pa % PGSIZE != 0 || pa < layout.end || pa >= layout.phystop
  }

  /** kfree: validate `pa`, then push it on the head of the calling CPU's list. */
  function Kfree(pools: seq<Pool>, cpu: nat, layout: Layout, pa: nat): (r: Result<seq<Pool>, Fault>)
    requires cpu < |pools| && layout.end > 0
    ensures r.Failure? <==> BadAddress(layout, pa)
    ensures r.Failure? ==> r.error == BadFree
    ensures r.Success? ==>
      && pa != 0
      && |r.value| == |pools|
      && r.value[cpu].freelist == [pa] + pools[cpu].freelist
      && r.value[cpu].size == pools[cpu].size + 1
      && (forall i | 0 <= i < |pools| && i != cpu :: r.value[i] == pools[i])
      && (Inv(pools) ==> Inv(r.value))
  {
    if BadAddress(layout, pa) then Failure(BadFree)
    else Success(pools[cpu := Pool([pa] + pools[cpu].freelist, pools[cpu].size + 1)])
  }

  /** A successful kfree adds exactly `pa` to the free pages. */
  lemma KfreeConserves(pools: seq<Pool>, cpu: nat, layout: Layout, pa: nat)
    requires cpu < |pools| && layout.end > 0
    ensures var r := Kfree(pools, cpu, layout, pa);
      r.Success? ==> FreePages(r.value) == FreePages(pools) + multiset{pa}
  {
    if !BadAddress(layout, pa) {
      var p := Pool([pa] + pools[cpu].freelist, pools[cpu].size + 1);
      FreePagesUpdate(pools, cpu, p);
      assert multiset(p.freelist) == multiset{pa} + multiset(pools[cpu].freelist);
      Cancel(FreePages(pools[cpu := p]), FreePages(pools) + multiset{pa}, multiset(pools[cpu].freelist));
    }
  }

  /** `r` has the largest size below `hi`, that size is positive, and every
      lower index has a strictly smaller size (the scan replaces on `>`). */
  ghost predicate IsRichestBelow(pools: seq<Pool>, r: int, hi: nat)
    requires hi <= |pools|
  {
    && 0 <= r < hi
    && pools[r].size > 0
    && forall j | 0 <= j < hi :: pools[j].size <= pools[r].size && (j < r ==> pools[j].size < pools[r].size)
  }

  ghost predicate RichestInv(pools: seq<Pool>, i: nat, maxsz: int, maxid: int)
    requires i <= |pools|
  {
    if maxid == -1 then maxsz == 0 && forall j | 0 <= j < i :: pools[j].size <= 0
    else IsRichestBelow(pools, maxid, i) && maxsz == pools[maxid].size
  }

  /** One iteration per CPU of richest's scan, from CPU `i` on. */
  function RichestScan(pools: seq<Pool>, i: nat, maxsz: int, maxid: int): (r: int)
    requires i <= |pools| && RichestInv(pools, i, maxsz, maxid)
    ensures r == -1 <==> forall j | 0 <= j < |pools| :: pools[j].size <= 0
    ensures r != -1 ==> IsRichestBelow(pools, r, |pools|)
    decreases |pools| - i
  {
    if i == |pools| then maxid
    else if pools[i].size > maxsz then RichestScan(pools, i + 1, pools[i].size, i)
    else RichestScan(pools, i + 1, maxsz, maxid)
  }

  /** richest: the CPU with the largest positive size, lowest index on ties,
      or -1 when no pool has pages. The caller's `cpuid()` only decides which
      locks are taken, so it does not appear here. */
  function Richest(pools: seq<Pool>): (r: int)
    ensures r == -1 <==> forall j | 0 <= j < |pools| :: pools[j].size <= 0
    ensures r != -1 ==> IsRichestBelow(pools, r, |pools|)
  {
    RichestScan(pools, 0, 0, -1)
  }

  /** Splitting the victim's list between victim and an empty thief keeps the
      total set of free pages. */
  lemma StealConserves(pools: seq<Pool>, cpu: nat, victim: nat, k: nat)
    requires cpu < |pools| && victim < |pools| && cpu != victim
    requires pools[cpu].freelist == [] && k <= |pools[victim].freelist|
    ensures
      var fl := pools[victim].freelist;
      var p2 := pools[victim := Pool(fl[k..], |fl| - k)][cpu := Pool(fl[..k], k)];
      FreePages(p2) == FreePages(pools)
  {
    var fl := pools[victim].freelist;
    var p1 := pools[victim := Pool(fl[k..], |fl| - k)];
    var p2 := p1[cpu := Pool(fl[..k], k)];
    assert FreePages(p1) + multiset(fl) == FreePages(pools) + multiset(fl[k..]) by {
      FreePagesUpdate(pools, victim, p1[victim]);
    }
    assert FreePages(p2) == FreePages(p1) + multiset(fl[..k]) by {
      FreePagesUpdate(p1, cpu, p2[cpu]);
      assert p1[cpu].freelist == [];
    }
    assert multiset(fl) == multiset(fl[..k]) + multiset(fl[k..]) by {
      assert fl == fl[..k] + fl[k..];
    }
    calc {
      FreePages(p2) + multiset(fl);
      FreePages(p1) + multiset(fl[..k]) + multiset(fl);
      (FreePages(p1) + multiset(fl)) + multiset(fl[..k]);
      FreePages(pools) + multiset(fl[k..]) + multiset(fl[..k]);
      FreePages(pools) + multiset(fl);
    }
    Cancel(FreePages(p2), FreePages(pools), multiset(fl));
  }

  /** The splice at the end of stealfrom: the first `k` pages of the victim's
      list become the thief's whole list, the rest stay with the victim. */
  function Splice(pools: seq<Pool>, cpu: nat, victim: nat, k: nat): (r: seq<Pool>)
    requires Inv(pools) && cpu < |pools| && victim < |pools| && cpu != victim
    requires pools[cpu].size == 0 && k <= pools[victim].size
    ensures |r| == |pools| && Inv(r)
    ensures r[cpu].freelist + r[victim].freelist == pools[victim].freelist
    ensures |r[cpu].freelist| == k
    ensures forall i | 0 <= i < |pools| && i != cpu && i != victim :: r[i] == pools[i]
    ensures FreePages(r) == FreePages(pools)
  {
    var fl := pools[victim].freelist;
    assert Counted(pools[cpu]) && Counted(pools[victim]);
    StealConserves(pools, cpu, victim, k);
    SplicedCounted(pools, cpu, victim, k);
    pools[victim := Pool(fl[k..], |fl| - k)][cpu := Pool(fl[..k], k)]
  }

  /** Both halves of the split carry their own length as `size`. */
  lemma SplicedCounted(pools: seq<Pool>, cpu: nat, victim: nat, k: nat)
    requires Inv(pools) && cpu < |pools| && victim < |pools| && cpu != victim
    requires k <= |pools[victim].freelist|
    ensures
      var fl := pools[victim].freelist;
      var r := pools[victim := Pool(fl[k..], |fl| - k)][cpu := Pool(fl[..k], k)];
      && Inv(r)
      && r[cpu].freelist + r[victim].freelist == fl
  {
    var fl := pools[victim].freelist;
    assert fl[..k] + fl[k..] == fl;
  }

  datatype Stolen = Stolen(pools: seq<Pool>, count: int)

  /** stealfrom: move the first half (rounded up) of the victim's list into the
      calling CPU's pool, which must be empty. */
  function Stealfrom(pools: seq<Pool>, cpu: nat, victim: nat): (r: Result<Stolen, Fault>)
    requires Inv(pools) && cpu < |pools| && victim < |pools|
    ensures r == Failure(StealFromSelf) <==> cpu == victim
    ensures cpu != victim && pools[victim].size == 0 ==> r == Success(Stolen(pools, 0))
    ensures r == Failure(ThiefNotEmpty) <==> cpu != victim && pools[victim].size > 0 && pools[cpu].size > 0
    ensures r.Success? ==>
      && |r.value.pools| == |pools|
      && Inv(r.value.pools)
      && FreePages(r.value.pools) == FreePages(pools)
    ensures r.Success? && pools[victim].size > 0 ==>
      var n := pools[victim].size;
      var thief := r.value.pools[cpu].freelist;
      var kept := r.value.pools[victim].freelist;
      && |thief| == (n + 1) / 2
      && |kept| == n - (n + 1) / 2
      && thief + kept == pools[victim].freelist
      && r.value.count == r.value.pools[cpu].size
      && (forall i | 0 <= i < |pools| && i != cpu && i != victim :: r.value.pools[i] == pools[i])
  {
    if cpu == victim then Failure(StealFromSelf)
    else if pools[victim].size == 0 then Success(Stolen(pools, 0))
    else
      var stealsz := (pools[victim].size + 1) / 2;
      if pools[cpu].size > 0 then Failure(ThiefNotEmpty)
      else
        Success(Stolen(Splice(pools, cpu, victim, stealsz), stealsz))
  }

  /** steal: stealfrom the richest CPU, if any has pages. It succeeds exactly
      when the caller's pool is empty, and then leaves the caller with pages
      exactly when some pool had any. */
  function Steal(pools: seq<Pool>, cpu: nat): (r: Result<Stolen, Fault>)
    requires Inv(pools) && cpu < |pools|
    ensures r.Success? <==> pools[cpu].size == 0
    ensures r.Success? ==>
      && |r.value.pools| == |pools|
      && Inv(r.value.pools)
      && FreePages(r.value.pools) == FreePages(pools)
      && (r.value.pools[cpu].size > 0 <==> !AllEmpty(pools))
    // with no pages anywhere nothing moves
    ensures r.Success? && Richest(pools) == -1 ==> r.value == Stolen(pools, 0)
    // otherwise the richest CPU is robbed of the first half of its list, rounded up
    ensures r.Success? && Richest(pools) != -1 ==>
      var v := Richest(pools);
      var n := pools[v].size;
      var thief := r.value.pools[cpu].freelist;
      && v != cpu
      && |thief| == (n + 1) / 2
      && thief + r.value.pools[v].freelist == pools[v].freelist
      && r.value.count == (n + 1) / 2
      && (forall i | 0 <= i < |pools| && i != cpu && i != v :: r.value.pools[i] == pools[i])
  {
    var richer := Richest(pools);
    if richer == -1 then Success(Stolen(pools, 0))
    else Stealfrom(pools, cpu, richer)
  }

  datatype Allocated = Allocated(pools: seq<Pool>, page: Option<nat>)

  /** kalloc: pop the head of the calling CPU's list, stealing first when that
      list is empty. A NULL return is `None`. */
  function Kalloc(pools: seq<Pool>, cpu: nat): (r: Allocated)
    requires Inv(pools) && cpu < |pools|
    ensures |r.pools| == |pools| && Inv(r.pools)
    ensures r.page.None? <==> AllEmpty(pools)
    ensures r.page.None? ==> FreePages(r.pools) == FreePages(pools)
    ensures r.page.Some? ==> FreePages(r.pools) + multiset{r.page.value} == FreePages(pools)
    ensures pools[cpu].size > 0 ==>
      && r.page == Some(pools[cpu].freelist[0])
      && r.pools == pools[cpu := Pool(pools[cpu].freelist[1..], pools[cpu].size - 1)]
    // on an empty CPU only the caller and the robbed CPU change
    ensures pools[cpu].size == 0 ==>
      forall i | 0 <= i < |pools| && i != cpu && i != Richest(pools) :: r.pools[i] == pools[i]
  {
    var p1 := if pools[cpu].size == 0 then Steal(pools, cpu).value.pools else pools;
    var fl := p1[cpu].freelist;
    if |fl| > 0 then
      var p := Pool(fl[1..], p1[cpu].size - 1);
      FreePagesUpdate(p1, cpu, p);
      assert fl == [fl[0]] + fl[1..];
      Cancel(FreePages(p1[cpu := p]) + multiset{fl[0]}, FreePages(p1), multiset(fl[1..]));
      Allocated(p1[cpu := p], Some(fl[0]))
    else
      Allocated(p1, None)
  }

  /** On an empty CPU, kalloc takes the first half (rounded up) of the richest
      pool and hands out its head; the rest of that half stays with the
      caller and the second half with the victim. */
  lemma KallocStealsHalf(pools: seq<Pool>, cpu: nat)
    requires Inv(pools) && cpu < |pools| && pools[cpu].size == 0 && !AllEmpty(pools)
    ensures
      var v := Richest(pools);
      var fl := pools[v].freelist;
      var n := |fl|;
      var r := Kalloc(pools, cpu);
      && v != -1 && v != cpu
      && r.page == Some(fl[0])
      && r.pools[cpu].freelist == fl[1..(n + 1) / 2]
      && r.pools[v].freelist == fl[(n + 1) / 2..]
      && (forall i | 0 <= i < |pools| && i != cpu && i != v :: r.pools[i] == pools[i])
  {
    var v := Richest(pools);
    assert Counted(pools[v]);
    var fl := pools[v].freelist;
    var s := Steal(pools, cpu).value.pools;
    assert s[cpu].freelist + s[v].freelist == fl;
    assert s[cpu].freelist == fl[..(|fl| + 1) / 2];
  }

  /** PGROUNDUP (riscv.h is not part of this model): the next multiple of
      PGSIZE at or above `a`. */
  function PgRoundUp(a: nat): (r: nat)
    ensures r % PGSIZE == 0 && a <= r < a + PGSIZE
  {
    (a + PGSIZE - 1) / PGSIZE * PGSIZE
  }

  /** The pages freerange visits from `p`: `p`, `p + PGSIZE`, ... while the
      page ends at or below `e`. */
  function PageRange(p: nat, e: nat): seq<nat>
    decreases e - p
  {
    if p + PGSIZE <= e then [p] + PageRange(p + PGSIZE, e) else []
  }

  /** The visited pages are the page-aligned steps from `p` that fit below
      `e`, every one of them, in strictly ascending order. */
  lemma {:induction false} PageRangeSpec(p: nat, e: nat)
    ensures forall j | 0 <= j < |PageRange(p, e)| ::
      var x := PageRange(p, e)[j];
      p <= x && x + PGSIZE <= e && (x - p) % PGSIZE == 0
    ensures forall j, k | 0 <= j < k < |PageRange(p, e)| :: PageRange(p, e)[j] < PageRange(p, e)[k]
    ensures forall x: nat | p <= x && x + PGSIZE <= e && (x - p) % PGSIZE == 0 :: x in PageRange(p, e)
    decreases e - p
  {
    if p + PGSIZE <= e {
      var r := PageRange(p, e);
      var rest := PageRange(p + PGSIZE, e);
      PageRangeSpec(p + PGSIZE, e);
      assert r == [p] + rest;
      forall j | 0 < j < |r| ensures p < r[j] && r[j] + PGSIZE <= e && (r[j] - p) % PGSIZE == 0 {
        assert r[j] == rest[j - 1];
        assert r[j] - p == (rest[j - 1] - (p + PGSIZE)) + PGSIZE;
      }
      forall x: nat | p < x && x + PGSIZE <= e && (x - p) % PGSIZE == 0 ensures x in rest {
        assert x - (p + PGSIZE) == (x - p) - PGSIZE;
      }
    }
  }

  function Reverse(s: seq<nat>): (r: seq<nat>)
    ensures |r| == |s| && forall j | 0 <= j < |s| :: r[j] == s[|s| - 1 - j]
  {
    if |s| == 0 then [] else Reverse(s[1..]) + [s[0]]
  }

  /** `q` is `pools` after pushing `pages`, in order, on CPU `cpu`'s list:
      the last page pushed is the new head, and no other pool changes. */
  ghost predicate PushedOnto(pools: seq<Pool>, q: seq<Pool>, cpu: nat, pages: seq<nat>) {
    && cpu < |pools|
    && |q| == |pools|
    && q[cpu].freelist == Reverse(pages) + pools[cpu].freelist
    && q[cpu].size == pools[cpu].size + |pages|
    && (forall i | 0 <= i < |pools| && i != cpu :: q[i] == pools[i])
  }

  /** Pushing `[p]` and then `rest` is pushing `[p] + rest`. */
  lemma PushedOntoTrans(pools: seq<Pool>, mid: seq<Pool>, q: seq<Pool>, cpu: nat, p: nat, rest: seq<nat>)
    requires PushedOnto(pools, mid, cpu, [p]) && PushedOnto(mid, q, cpu, rest)
    ensures PushedOnto(pools, q, cpu, [p] + rest)
  {
    assert ([p] + rest)[1..] == rest;
    assert Reverse([p] + rest) == Reverse(rest) + [p];
  }

  /** freerange's loop from page `p` on: kfree each page in ascending order, so
      the last page freed ends up at the head of the list. */
  function FreeFrom(pools: seq<Pool>, cpu: nat, layout: Layout, p: nat, e: nat): (r: Result<seq<Pool>, Fault>)
    requires cpu < |pools| && layout.end > 0
    ensures r.Failure? <==> exists x | x in PageRange(p, e) :: BadAddress(layout, x)
    ensures r.Success? ==> PushedOnto(pools, r.value, cpu, PageRange(p, e))
    decreases e - p
  {
    if p + PGSIZE <= e then
      PageRangeStep(p, e);
      match Kfree(pools, cpu, layout, p)
      case Failure(f) => Failure(f)
      case Success(p1) =>
        var r := FreeFrom(p1, cpu, layout, p + PGSIZE, e);
        assert PushedOnto(pools, p1, cpu, [p]);
        if r.Success? then
          PushedOntoTrans(pools, p1, r.value, cpu, p, PageRange(p + PGSIZE, e));
          r
        else r
    else
      Success(pools)
  }

  /** The first page of a non-empty range, split off. */
  lemma PageRangeStep(p: nat, e: nat)
    requires p + PGSIZE <= e
    ensures PageRange(p, e) == [p] + PageRange(p + PGSIZE, e)
    ensures Reverse(PageRange(p, e)) == Reverse(PageRange(p + PGSIZE, e)) + [p]
    ensures multiset(PageRange(p, e)) == multiset{p} + multiset(PageRange(p + PGSIZE, e))
  {
    var s := PageRange(p, e);
    assert s[1..] == PageRange(p + PGSIZE, e);
  }

  /** freerange's loop adds exactly the visited pages to the free pages. */
  lemma FreeFromConserves(pools: seq<Pool>, cpu: nat, layout: Layout, p: nat, e: nat)
    requires cpu < |pools| && layout.end > 0
    ensures
      var r := FreeFrom(pools, cpu, layout, p, e);
      r.Success? ==> FreePages(r.value) == FreePages(pools) + multiset(PageRange(p, e))
  {
    var r := FreeFrom(pools, cpu, layout, p, e);
    if r.Success? {
      PushedOntoConserves(pools, r.value, cpu, PageRange(p, e));
    }
  }

  /** Reversing a list keeps its pages. */
  lemma {:induction false} ReverseMultiset(s: seq<nat>)
    ensures multiset(Reverse(s)) == multiset(s)
  {
    if |s| > 0 {
      ReverseMultiset(s[1..]);
      assert s == [s[0]] + s[1..];
    }
  }

  /** Pushing pages onto one CPU's list adds exactly those pages to the free
      pages. */
  lemma PushedOntoConserves(pools: seq<Pool>, q: seq<Pool>, cpu: nat, pages: seq<nat>)
    requires PushedOnto(pools, q, cpu, pages)
    ensures FreePages(q) == FreePages(pools) + multiset(pages)
  {
    var old_ := multiset(pools[cpu].freelist);
    assert q == pools[cpu := q[cpu]];
    FreePagesUpdate(pools, cpu, q[cpu]);
    ReverseMultiset(pages);
    assert multiset(q[cpu].freelist) == multiset(pages) + old_;
    Cancel(FreePages(q), FreePages(pools) + multiset(pages), old_);
  }

  /** Sizes still match lists after freerange's loop. */
  lemma FreeFromKeepsInv(pools: seq<Pool>, cpu: nat, layout: Layout, p: nat, e: nat)
    requires cpu < |pools| && layout.end > 0
    ensures
      var r := FreeFrom(pools, cpu, layout, p, e);
      Inv(pools) && r.Success? ==> Inv(r.value)
  {
    var r := FreeFrom(pools, cpu, layout, p, e);
    if Inv(pools) && r.Success? {
      forall i | 0 <= i < |r.value| ensures Counted(r.value[i]) {
        if i != cpu {
          assert r.value[i] == pools[i];
        } else {
          assert Counted(pools[cpu]);
        }
      }
    }
  }

  /** freerange(pa_start, pa_end). */
  function Freerange(pools: seq<Pool>, cpu: nat, layout: Layout, start: nat, e: nat): (r: Result<seq<Pool>, Fault>)
    requires cpu < |pools| && layout.end > 0
    ensures r.Failure? <==> exists x | x in PageRange(PgRoundUp(start), e) :: BadAddress(layout, x)
    ensures r.Success? ==>
      && |r.value| == |pools|
      && r.value[cpu].freelist == Reverse(PageRange(PgRoundUp(start), e)) + pools[cpu].freelist
      && (forall i | 0 <= i < |pools| && i != cpu :: r.value[i] == pools[i])
      && (Inv(pools) ==> Inv(r.value))
    // the highest page of the range is freed last and so heads the list
    ensures r.Success? && |PageRange(PgRoundUp(start), e)| > 0 ==>
      forall x | x in PageRange(PgRoundUp(start), e) :: x <= r.value[cpu].freelist[0]
  {
    FreeFromKeepsInv(pools, cpu, layout, PgRoundUp(start), e);
    PageRangeSpec(PgRoundUp(start), e);
    FreeFrom(pools, cpu, layout, PgRoundUp(start), e)
  }

  /** kinit on CPU `cpu`: all pools empty, then freerange(end, PHYSTOP). It
      never panics, and every page of the range lands on the caller's list,
      the highest page first. */
  function Kinit(ncpu: nat, cpu: nat, layout: Layout): (r: Result<seq<Pool>, Fault>)
    requires cpu < ncpu && layout.end > 0
    ensures r.Success?
    ensures |r.value| == ncpu && Inv(r.value)
    ensures r.value[cpu].freelist == Reverse(PageRange(PgRoundUp(layout.end), layout.phystop))
    ensures forall i | 0 <= i < ncpu && i != cpu :: r.value[i] == Pool([], 0)
    ensures 0 !in r.value[cpu].freelist
  {
    var empty := seq(ncpu, _ => Pool([], 0));
    KinitRangeIsValid(layout);
    var pages := PageRange(PgRoundUp(layout.end), layout.phystop);
    assert forall j | 0 <= j < |pages| :: pages[j] in pages;
    Freerange(empty, cpu, layout, layout.end, layout.phystop)
  }

  /** Every page of freerange(end, PHYSTOP) passes kfree's check. */
  lemma KinitRangeIsValid(layout: Layout)
    ensures forall x | x in PageRange(PgRoundUp(layout.end), layout.phystop) :: !BadAddress(layout, x)
  {
    var p := PgRoundUp(layout.end);
    PageRangeSpec(p, layout.phystop);
    forall x | x in PageRange(p, layout.phystop)
      ensures !BadAddress(layout, x)
    {
      assert (x - p) % PGSIZE == 0;
      assert x == p + (x - p);
    }
  }
}
