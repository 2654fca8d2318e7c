/** The paged memory manager: a pool of page numbers 0 .. totalPages-1, a
    free list kept in ascending order, and one page table per resident
    process. */
module Memory {
  import opened Seqs
  import opened Pcb

  datatype MemoryManager = MemoryManager(
    totalPages: nat,
    pageSize: int,
    freePages: seq<int>,
    pageTables: map<int, seq<int>>)

  /** Every page currently held by some page table. */
  ghost function Allocated(tables: map<int, seq<int>>): set<int>
  {
    set p, x | p in tables && x in tables[p] :: x
  }

  /** Conservation: the free list and the page tables are duplicate-free,
      pairwise disjoint, and together hold exactly the pages 0 .. totalPages-1;
      that is, they partition the page pool. */
  ghost predicate Conserved(mm: MemoryManager)
  {
    && NoDup(mm.freePages)
    && (forall p | p in mm.pageTables ::
          NoDup(mm.pageTables[p]) && Disjoint(mm.freePages, mm.pageTables[p]))
    && (forall p, q | p in mm.pageTables && q in mm.pageTables && p != q ::
          Disjoint(mm.pageTables[p], mm.pageTables[q]))
    && (forall x :: x in mm.freePages || x in Allocated(mm.pageTables) <==> 0 <= x < mm.totalPages)
  }

  /** The manager's invariant: conservation, and a strictly ascending free list. */
  ghost predicate Valid(mm: MemoryManager)
  {
    Conserved(mm) && StrictlyAscending(mm.freePages)
  }

  /** The constructor: every page free, no page tables. */
  function Init(totalPages: nat, pageSize: int): (mm: MemoryManager)
    ensures Valid(mm)
    ensures mm.totalPages == totalPages && mm.pageSize == pageSize
    ensures mm.pageTables == map[]
  {
    var free := Range(totalPages);
    StrictIsNoDup(free);
    var mm := MemoryManager(totalPages, pageSize, free, map[]);
    forall x ensures x in mm.freePages || x in Allocated(mm.pageTables) <==> 0 <= x < totalPages {
      assert x !in Allocated(mm.pageTables);
      if x in free {
        var i :| 0 <= i < |free| && free[i] == x;
      }
      if 0 <= x < totalPages {
        assert free[x] == x;
      }
    }
    MemoryManager(totalPages, pageSize, free, map[])
  }

  /** What `allocate_memory` leaves behind: whether it granted the request,
      the manager and the process block afterwards. */
  datatype Allocation = Allocation(granted: bool, mm: MemoryManager, pcb: PCB)

  /** All-or-nothing allocation from the front of the free list: the process
      receives the first `pagesNeeded` free pages, which also become its page
      table; a request larger than the free list changes nothing. */
  function Allocate(mm: MemoryManager, pcb: PCB): (a: Allocation)
    ensures a.granted <==> |mm.freePages| >= pcb.pagesNeeded
    ensures !a.granted ==> a.mm == mm && a.pcb == pcb
    ensures a.granted ==>
      && |a.pcb.pages| == pcb.pagesNeeded
      && mm.freePages == a.pcb.pages + a.mm.freePages
      && a.pcb == pcb.(pages := a.pcb.pages)
      && a.mm.pageTables == mm.pageTables[pcb.pid := a.pcb.pages]
      && a.mm.totalPages == mm.totalPages && a.mm.pageSize == mm.pageSize
  {
    if |mm.freePages| >= pcb.pagesNeeded then
      var k := pcb.pagesNeeded;
      var pages := mm.freePages[..k];
      assert mm.freePages == pages + mm.freePages[k..];
      Allocation(true,
        mm.(freePages := mm.freePages[k..], pageTables := mm.pageTables[pcb.pid := pages]),
        pcb.(pages := pages))
    else
      Allocation(false, mm, pcb)
  }

  /** `deallocate_memory`: the process's pages go back to the free list, which
      is sorted again; its page table is deleted (a missing page table raises
      KeyError, hence the precondition) and the block's page list emptied. */
  function Deallocate(mm: MemoryManager, pcb: PCB): (r: (MemoryManager, PCB))
    requires pcb.pid in mm.pageTables
    ensures Sorted(r.0.freePages)
    ensures multiset(r.0.freePages) == multiset(mm.freePages) + multiset(pcb.pages)
    ensures pcb.pid !in r.0.pageTables
    ensures forall q | q in mm.pageTables && q != pcb.pid ::
      q in r.0.pageTables && r.0.pageTables[q] == mm.pageTables[q]
    ensures r.0.pageTables.Keys == mm.pageTables.Keys - {pcb.pid}
    ensures r.0.totalPages == mm.totalPages && r.0.pageSize == mm.pageSize
    ensures r.1 == pcb.(pages := [])
  {
    (mm.(freePages := Sort(mm.freePages + pcb.pages), pageTables := mm.pageTables - {pcb.pid}),
     pcb.(pages := []))
  }

  /** Allocation for a process without a page table keeps the invariant, and
      a granted block's page list equals its recorded page table. */
  lemma AllocatePreservesValid(mm: MemoryManager, pcb: PCB)
    requires Valid(mm)
    requires pcb.pid !in mm.pageTables
    ensures Valid(Allocate(mm, pcb).mm)
    ensures Allocate(mm, pcb).granted ==>
      Allocate(mm, pcb).mm.pageTables[pcb.pid] == Allocate(mm, pcb).pcb.pages
  {
    var a := Allocate(mm, pcb);
    if a.granted {
      var k := pcb.pagesNeeded;
      NoDupSplit(mm.freePages, k);
      AllocatedTablesDisjoint(mm, pcb.pid, k);
      AllocatedCover(mm, pcb.pid, k);
      SuffixAscending(mm.freePages, k);
    }
  }

  /** A suffix of a strictly ascending list is strictly ascending. */
  lemma SuffixAscending(s: seq<int>, k: nat)
    requires k <= |s| && StrictlyAscending(s)
    ensures StrictlyAscending(s[k..])
  {
    var rest := s[k..];
    forall i, j | 0 <= i < j < |rest| ensures rest[i] < rest[j] {
      assert rest[i] == s[k + i] && rest[j] == s[k + j];
    }
  }

  /** The page tables after a granted allocation are duplicate-free and
      disjoint from each other and from the remaining free list. */
  lemma AllocatedTablesDisjoint(mm: MemoryManager, pid: int, k: nat)
    requires Conserved(mm) && pid !in mm.pageTables && k <= |mm.freePages|
    requires NoDup(mm.freePages[..k]) && NoDup(mm.freePages[k..])
    requires Disjoint(mm.freePages[..k], mm.freePages[k..])
    ensures var t := mm.pageTables[pid := mm.freePages[..k]];
      && (forall p | p in t :: NoDup(t[p]) && Disjoint(mm.freePages[k..], t[p]))
      && (forall p, q | p in t && q in t && p != q :: Disjoint(t[p], t[q]))
  {
    var pages := mm.freePages[..k];
    var rest := mm.freePages[k..];
    assert mm.freePages == pages + rest;
    assert multiset(mm.freePages) == multiset(pages) + multiset(rest);
    var t := mm.pageTables[pid := pages];
    forall p | p in t ensures NoDup(t[p]) && Disjoint(rest, t[p]) {
      if p != pid {
        assert Disjoint(mm.freePages, t[p]);
      }
    }
    forall p, q | p in t && q in t && p != q ensures Disjoint(t[p], t[q]) {
      if p == pid {
        assert Disjoint(mm.freePages, t[q]);
      } else if q == pid {
        assert Disjoint(mm.freePages, t[p]);
      }
    }
  }

  /** After a granted allocation the remaining free list and the page tables
      still cover exactly the page pool. */
  lemma AllocatedCover(mm: MemoryManager, pid: int, k: nat)
    requires Conserved(mm) && pid !in mm.pageTables && k <= |mm.freePages|
    ensures var t := mm.pageTables[pid := mm.freePages[..k]];
      forall x :: x in mm.freePages[k..] || x in Allocated(t) <==> 0 <= x < mm.totalPages
  {
    var pages := mm.freePages[..k];
    var rest := mm.freePages[k..];
    assert mm.freePages == pages + rest;
    forall x ensures x in rest || x in Allocated(mm.pageTables[pid := pages]) <==> 0 <= x < mm.totalPages {
      AllocatedInsert(mm.pageTables, pid, pages, x);
    }
  }

  /** Membership in the allocated set after adding a fresh page table. */
  lemma AllocatedInsert(t: map<int, seq<int>>, pid: int, pages: seq<int>, x: int)
    requires pid !in t
    ensures x in Allocated(t[pid := pages]) <==> x in Allocated(t) || x in pages
  {
    var t' := t[pid := pages];
    if x in Allocated(t') {
      var p :| p in t' && x in t'[p];
      if p != pid {
        assert x in Allocated(t);
      }
    }
    if x in Allocated(t) {
      var p :| p in t && x in t[p];
      assert p in t' && x in t'[p];
    }
    if x in pages {
      assert pid in t' && x in t'[pid];
    }
  }

  /** Membership in the allocated set after deleting a page table. */
  lemma AllocatedRemove(t: map<int, seq<int>>, pid: int, x: int)
    requires pid in t
    ensures x in Allocated(t) <==> x in Allocated(t - {pid}) || x in t[pid]
  {
    var t' := t - {pid};
    if x in Allocated(t) {
      var p :| p in t && x in t[p];
      if p != pid {
        assert p in t' && x in t'[p];
      }
    }
    if x in Allocated(t') {
      var p :| p in t' && x in t'[p];
      assert p in t && x in t[p];
    }
    if x in t[pid] {
      assert pid in t && x in t[pid];
    }
  }

  /** Deallocation keeps the invariant when the block's pages are its page
      table, as they are in the source, where both are one list object. */
  lemma DeallocatePreservesValid(mm: MemoryManager, pcb: PCB)
    requires Valid(mm)
    requires pcb.pid in mm.pageTables && mm.pageTables[pcb.pid] == pcb.pages
    ensures Valid(Deallocate(mm, pcb).0)
  {
    var r := Deallocate(mm, pcb).0;
    var free := r.freePages;
    NoDupConcat(mm.freePages, pcb.pages);
    assert multiset(mm.freePages + pcb.pages) == multiset(mm.freePages) + multiset(pcb.pages);
    assert NoDup(free);
    SortedNoDupIsStrict(free);
    var t := r.pageTables;
    forall p | p in t ensures NoDup(t[p]) && Disjoint(free, t[p]) {
      assert Disjoint(mm.freePages, t[p]);
      assert Disjoint(pcb.pages, t[p]);
    }
    forall x ensures x in free || x in Allocated(t) <==> 0 <= x < mm.totalPages {
      AllocatedRemove(mm.pageTables, pcb.pid, x);
      assert x in free <==> x in multiset(free);
      assert x in multiset(free) <==> x in mm.freePages || x in pcb.pages;
    }
  }

  /** Allocating for a process and then deallocating it restores the manager
      exactly: the same free list in the same order and the same page tables.
      Deallocation needs the page table allocation created, so the request
      must have been granted. */
  lemma AllocateDeallocateRoundTrip(mm: MemoryManager, pcb: PCB)
    requires Sorted(mm.freePages)
    requires pcb.pid !in mm.pageTables
    requires |mm.freePages| >= pcb.pagesNeeded
    ensures Allocate(mm, pcb).granted
    ensures Deallocate(Allocate(mm, pcb).mm, Allocate(mm, pcb).pcb) == (mm, pcb.(pages := []))
  {
    var a := Allocate(mm, pcb);
    var d := Deallocate(a.mm, a.pcb);
    assert multiset(d.0.freePages) == multiset(mm.freePages) by {
      assert multiset(d.0.freePages) == multiset(a.mm.freePages) + multiset(a.pcb.pages);
      assert multiset(mm.freePages) == multiset(a.pcb.pages) + multiset(a.mm.freePages);
    }
    SortedUnique(d.0.freePages, mm.freePages);
    AddThenRemove(mm.pageTables, pcb.pid, a.pcb.pages);
  }

  /** Adding a fresh key to a map and deleting it again gives the map back. */
  lemma AddThenRemove(m: map<int, seq<int>>, k: int, v: seq<int>)
    requires k !in m
    ensures m[k := v] - {k} == m
  {
  }

  /** The outcome of `translate_address`. `NoPageTable` and `InvalidPage` are
      the source's `(None, message)` returns; `IndexOutOfRange` is the
      IndexError Python raises when a negative page number reaches below the
      start of the page list. */
  datatype Translation =
    | Translated(physical: int, frame: int, offset: int)
    | NoPageTable
    | InvalidPage
    | IndexOutOfRange

  /** Address translation. The page number and offset are floor division and
      remainder by the page size (Dafny's `/` and `%` agree with Python's `//`
      and `%` for a positive divisor); a page size of zero would raise
      ZeroDivisionError, hence the precondition. A negative page number is not
      rejected by the bounds check and indexes the page list from its end. */
  function Translate(mm: MemoryManager, pid: int, va: int): (r: Translation)
    requires mm.pageSize > 0
    ensures r == NoPageTable <==> pid !in mm.pageTables
    ensures r == InvalidPage <==> pid in mm.pageTables && va / mm.pageSize >= |mm.pageTables[pid]|
    ensures r == IndexOutOfRange <==>
      pid in mm.pageTables && va / mm.pageSize < -|mm.pageTables[pid]|
    ensures r.Translated? ==>
      && pid in mm.pageTables
      && var pages, page := mm.pageTables[pid], va / mm.pageSize;
      && -|pages| <= page < |pages|
      && r.frame == (if page >= 0 then pages[page] else pages[|pages| + page])
      && r.offset == va % mm.pageSize && 0 <= r.offset < mm.pageSize
      && r.physical == r.frame * mm.pageSize + r.offset
  {
    if pid !in mm.pageTables then NoPageTable
    else
      var pages := mm.pageTables[pid];
      var page := va / mm.pageSize;
      var offset := va % mm.pageSize;
      if page >= |pages| then InvalidPage
      else if page < -|pages| then IndexOutOfRange
      else
        var frame := if page >= 0 then pages[page] else pages[|pages| + page];
        Translated(frame * mm.pageSize + offset, frame, offset)
  }

  /** Floor division undoes `q * d + r` for a remainder in range. */
  lemma DivMulAdd(q: int, d: int, r: int)
    requires d > 0 && 0 <= r < d
    ensures (q * d + r) / d == q && (q * d + r) % d == r
  {
    var n := q * d + r;
    var q' := n / d;
    var r' := n % d;
    assert q' * d + r' == n;
    var e := q' - q;
    assert e * d == r - r' by {
      assert q' * d == q * d + e * d;
    }
    MulAtLeast(e, d);
    MulAtLeast(-e, d);
    assert (-e) * d == -(e * d);
  }

  /** Floor division by a positive number keeps the sign: the quotient is
      negative exactly when the dividend is. */
  lemma DivSign(a: int, d: int)
    requires d > 0
    ensures a >= 0 <==> a / d >= 0
  {
    var q, r := a / d, a % d;
    assert a == q * d + r && 0 <= r < d;
    if q >= 0 {
      assert q * d >= 0;
    } else {
      MulAtLeast(-q, d);
      assert (-q) * d == -(q * d);
    }
  }

  /** A positive multiple of a positive number is at least that number. */
  lemma MulAtLeast(e: int, d: int)
    requires d > 0
    ensures e >= 1 ==> e * d >= d
  {
    if e >= 1 {
      assert e * d == (e - 1) * d + d;
      assert (e - 1) * d >= 0;
    }
  }

  /** A translated address lies in the translated frame at the virtual
      address's offset: dividing it by the page size gives back the frame,
      and the remainder is the offset within the virtual page. */
  lemma TranslatedAddressSplits(mm: MemoryManager, pid: int, va: int)
    requires mm.pageSize > 0
    requires Translate(mm, pid, va).Translated?
    ensures var r := Translate(mm, pid, va);
      && r.physical / mm.pageSize == r.frame
      && r.physical % mm.pageSize == r.offset == va % mm.pageSize
      && va == (va / mm.pageSize) * mm.pageSize + r.offset
  {
    var r := Translate(mm, pid, va);
    DivMulAdd(r.frame, mm.pageSize, r.offset);
  }

  /** Within one resident process, distinct non-negative virtual addresses
      translate to distinct physical addresses. */
  lemma TranslateInjective(mm: MemoryManager, pid: int, va1: int, va2: int)
    requires mm.pageSize > 0 && Valid(mm)
    requires 0 <= va1 && 0 <= va2
    requires Translate(mm, pid, va1).Translated? && Translate(mm, pid, va2).Translated?
    requires Translate(mm, pid, va1).physical == Translate(mm, pid, va2).physical
    ensures va1 == va2
  {
    var ps := mm.pageSize;
    var r1 := Translate(mm, pid, va1);
    var r2 := Translate(mm, pid, va2);
    TranslatedAddressSplits(mm, pid, va1);
    TranslatedAddressSplits(mm, pid, va2);
    DivSign(va1, ps);
    DivSign(va2, ps);
    NoDupIndex(mm.pageTables[pid], va1 / ps, va2 / ps);
  }

  /** Two different resident processes never share a physical address. */
  lemma TranslateIsolated(mm: MemoryManager, pid1: int, va1: int, pid2: int, va2: int)
    requires mm.pageSize > 0 && Valid(mm)
    requires pid1 != pid2
    requires Translate(mm, pid1, va1).Translated? && Translate(mm, pid2, va2).Translated?
    ensures Translate(mm, pid1, va1).physical != Translate(mm, pid2, va2).physical
  {
    var r1 := Translate(mm, pid1, va1);
    var r2 := Translate(mm, pid2, va2);
    TranslatedAddressSplits(mm, pid1, va1);
    TranslatedAddressSplits(mm, pid2, va2);
    assert Disjoint(mm.pageTables[pid1], mm.pageTables[pid2]);
    assert r1.frame in multiset(mm.pageTables[pid1]);
  }

  /** Negative addresses alias: with pages [5, 9] and 1024-byte pages, the
      address -1 reaches the last byte of the last page, the same physical
      address as the virtual address 2047, and -1025 reaches the first page;
      from -2049 on the page number -3 falls below the list and Python raises
      IndexError. */
  lemma NegativeAddressAliases()
    ensures var mm := MemoryManager(16, 1024, [], map[1 := [5, 9]]);
      && Translate(mm, 1, -1) == Translated(10239, 9, 1023)
      && Translate(mm, 1, 2047) == Translated(10239, 9, 1023)
      && Translate(mm, 1, -1025) == Translated(6143, 5, 1023)
      && Translate(mm, 1, -2049) == IndexOutOfRange
  {
  }
}
