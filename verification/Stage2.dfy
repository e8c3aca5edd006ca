/**
 Guest memory: the kernel page heap, the user frame bitmap, the stage-2 tables built in
 the heap, and the operations that change them (src/mm).
 */
module Stage2 {
  import opened Bits
  import opened Descriptor
  import opened Stage2Tree
  import opened Wrappers

  const USER_PAGES: nat := 524288         // kPagingPages, 2 GiB
  const FRAME_BYTES: nat := 0x1000

  /** Result of an allocation: a null pointer, a PANIC, or an address. */
  datatype Alloc = Null | Panic | At(addr: nat)

  /** The part of a task control block that memory management uses. */
  class Task {
    var pageTable: nat        // mm.page_table
    var pages: nat            // mm.pages
    var pageFaults: nat       // stat.page_faults
    ghost var view: map<nat, nat>   // leaf descriptor of each mapped IPA page
    ghost var faults: seq<nat>      // the pages of the faulting addresses so far
    ghost var remaps: nat           // MapPage calls that hit a page already mapped
    ghost var devicePages: nat      // MapPage calls for device pages
    ghost var loadedPages: nat      // MapPage calls for DRAM that were not page faults

    constructor ()
      ensures pageTable == 0 && pages == 0 && pageFaults == 0
      ensures view == map[] && faults == [] && remaps == 0 && devicePages == 0 && loadedPages == 0
    {
      pageTable, pages, pageFaults := 0, 0, 0;
      view, faults, remaps, devicePages, loadedPages := map[], [], 0, 0, 0;
    }
  }

  /** The one IPA page a user frame was handed out for. */
  datatype Holder = Holder(task: Task, page: nat)

  const IPA_LIMIT: nat := 0x1000 * S2_PAGES     // the hardware's input size, 2^36

  /** The page whose entries the software selects for an address. */
  function PageOf(ipa: nat): nat { ipa / 0x1000 % IPA_PAGES }

  function DeviceFlags(accessible: bool): nat {
    if accessible then PTE_DEVICE_ACCESS else PTE_DEVICE_NO_ACCESS
  }

  ghost function Lookup(view: map<nat, nat>, page: nat): Option<nat> {
    if page in view then Some(view[page]) else None
  }

  /** The pages of a view that lead to guest DRAM. */
  ghost function DramPages(view: map<nat, nat>): set<nat> {
    set p | p in view && view[p] % 0x1000 == PTE_DRAM
  }

  /** The frames from the hint on that are not taken. */
  ghost function NotTaken(owner: seq<Option<Holder>>, next: nat): set<nat> {
    set u | next <= u < |owner| && owner[u].None?
  }

  lemma TakesFirst(owner: seq<Option<Holder>>, next: nat, i: nat, h: Holder)
    requires next <= i < |owner| && owner[i].None? && forall v :: next <= v < i ==> owner[v].Some?
    ensures |NotTaken(owner[i := Some(h)], i + 1)| + 1 == |NotTaken(owner, next)|
  {
    assert NotTaken(owner, next) == NotTaken(owner[i := Some(h)], i + 1) + {i};
  }

  lemma FreedBelow(owner: seq<Option<Holder>>, next: nat, u: nat)
    requires u < |owner| && u < next
    ensures NotTaken(owner[u := None], next) == NotTaken(owner, next)
  {
  }

  lemma NoneLeft(owner: seq<Option<Holder>>, next: nat)
    requires forall v :: next <= v < |owner| ==> owner[v].Some?
    ensures NotTaken(owner, next) == {}
  {
  }

  ghost function Positions<T>(s: seq<T>, v: T): set<nat> {
    set i | 0 <= i < |s| && s[i] == v
  }

  lemma {:induction false} AllPositions<T>(s: seq<T>, v: T)
    requires forall i :: 0 <= i < |s| ==> s[i] == v
    ensures |Positions(s, v)| == |s|
  {
    if s != [] {
      var n := |s| - 1;
      AllPositions(s[..n], v);
      assert Positions(s, v) == Positions(s[..n], v) + {n};
    }
  }

  class Memory {
    const heapStart: nat
    const userStart: nat
    const heapMap: array<bool>     // kernelHeapMemMap
    const heap: array<nat>         // the heap as 64-bit words
    const userMap: array<nat>      // userMemoryRegionMap_
    const user: array<nat>         // guest DRAM as bytes
    var nextFree: nat              // nextFreeSpaceIndex
    ghost var use: seq<Use<Task>>
    ghost var owner: seq<Option<Holder>>
    ghost var tasks: set<Task>

    ghost function UserAddr(u: nat): nat { userStart + 0x1000 * u }

    ghost predicate Layout()
    {
      && heapMap.Length == HEAP_PAGES && heap.Length == HEAP_WORDS
      && userMap.Length == USER_PAGES && user.Length == USER_PAGES * FRAME_BYTES
      && heap != userMap && heap != user && userMap != user
      && HeapOk(heapStart) && userStart % 0x1000 == 0 && 0 < userStart
      && userStart + 0x1000 * USER_PAGES <= ADDR_LIMIT
      && (heapStart + 0x1000 * HEAP_PAGES <= userStart || userStart + 0x1000 * USER_PAGES <= heapStart)
    }

    /** Which heap pages are taken, and the tables among them. */
    ghost predicate HeapValid()
      requires Layout()
      reads this`use, this`tasks, heapMap, heap, tasks`pageTable
    {
      && TreeOk(heapStart, heap[..], use)
      && (forall f :: 0 <= f < HEAP_PAGES ==> (heapMap[f] <==> use[f] != Free))
      && TablesListed(use)
    }

    /** Every table belongs to a task, and a task has one root. */
    ghost predicate TablesListed(use: seq<Use<Task>>)
      requires Layout() && |use| == HEAP_PAGES
      reads this`tasks, tasks`pageTable
    {
      forall f :: 0 <= f < HEAP_PAGES && use[f].Table? ==>
        use[f].task in tasks && (use[f].level == 1 ==> use[f].task.pageTable == FrameAddr(heapStart, f))
    }

    ghost predicate Rooted(t: Task, use: seq<Use<Task>>, r: nat)
      requires Layout()
      reads t`pageTable
    {
      r < HEAP_PAGES && |use| == HEAP_PAGES && t.pageTable == FrameAddr(heapStart, r)
      && use[r].Table? && use[r].level == 1 && use[r].first == 0 && use[r].task == t
    }

    /** Over these heap words, the hardware walk of the task is its view. */
    ghost predicate WalksAsView(words: seq<nat>, use: seq<Use<Task>>, t: Task)
      requires Layout()
      reads t`pageTable, t`view
    {
      && (t.pageTable == 0 || exists r :: Rooted(t, use, r))
      && (forall p :: 0 <= p < IPA_PAGES ==> TreeWalk(heapStart, words, t.pageTable, p) == Lookup(t.view, p))
    }

    /** mm.pages by leaves and by origin; the DRAM leaves are the loaded and the faulted pages. */
    ghost predicate Counted(t: Task)
      reads t`pages, t`pageFaults, t`view, t`faults, t`remaps, t`devicePages, t`loadedPages
    {
      CountedAs(t, t.pages)
    }

    ghost predicate CountedAs(t: Task, pages: int)
      reads t`pageFaults, t`view, t`faults, t`remaps, t`devicePages, t`loadedPages
    {
      Sums(pages, t.view, t.remaps, t.devicePages, t.loadedPages, t.pageFaults) && FaultsMapped(t)
    }

    ghost predicate Sums(pages: int, view: map<nat, nat>, remaps: nat, devices: nat, loaded: nat, faulted: nat) {
      && (forall p :: p in view ==> p < IPA_PAGES)
      && pages == |view| + remaps == devices + loaded + faulted
      && (remaps == 0 ==> |DramPages(view)| == loaded + faulted)
    }

    /** Every page that faulted is mapped from then on. */
    ghost predicate FaultsMapped(t: Task)
      reads t`faults, t`pageFaults, t`view
    {
      |t.faults| == t.pageFaults && forall i :: 0 <= i < |t.faults| ==> t.faults[i] % IPA_PAGES in t.view
    }

    ghost predicate AllWalk(words: seq<nat>, use: seq<Use<Task>>)
      requires Layout()
      reads this`tasks, tasks`pageTable, tasks`view
    {
      forall t :: t in tasks ==> WalksAsView(words, use, t)
    }

    /** The bookkeeping that does not depend on the heap's words. */
    ghost predicate Books()
      requires Layout()
      reads this`owner, this`nextFree, this`tasks, userMap
      reads tasks`pages, tasks`pageFaults, tasks`view, tasks`faults, tasks`remaps, tasks`devicePages, tasks`loadedPages
    {
      BitmapValid() && forall t :: t in tasks ==> Counted(t) && LeavesOwned(t)
    }

    ghost predicate Handed(u: nat)
      requires Layout() && u < USER_PAGES
      reads userMap
    {
      Bit(userMap[u / 8], u % 8) == 1
    }

    ghost predicate BitmapValid()
      requires Layout()
      reads this`owner, this`nextFree, userMap
    {
      && |owner| == USER_PAGES && nextFree <= USER_PAGES
      && (forall i :: 0 <= i < USER_PAGES ==> userMap[i] < 0x100)
      && (forall u :: 0 <= u < USER_PAGES ==> (Handed(u) <==> owner[u].Some?))
    }

    /** Leaves have the flags the code writes, and every DRAM leaf is the one the frame was handed out for. */
    ghost predicate LeavesOwnedIn(owner: seq<Option<Holder>>, t: Task, view: map<nat, nat>)
      requires Layout()
    {
      && |owner| == USER_PAGES && (forall p :: p in view ==> LeafOk(view[p]))
      && forall p :: p in view && view[p] % 0x1000 == PTE_DRAM ==>
           exists u :: 0 <= u < USER_PAGES && view[p] == UserAddr(u) + PTE_DRAM && owner[u] == Some(Holder(t, p))
    }

    ghost predicate LeavesOwned(t: Task)
      requires Layout()
      reads this`owner, t`view
    {
      LeavesOwnedIn(owner, t, t.view)
    }

    ghost predicate Valid()
      reads this, heapMap, heap, userMap, tasks
    {
      Layout() && HeapValid() && AllWalk(heap[..], use) && Books()
    }

    /** Each frame handed out is still mapped where it was handed out for, view0 standing for t's view. */
    ghost predicate StillMapped(owner: seq<Option<Holder>>, t: Task, view0: map<nat, nat>)
      requires Layout()
      reads this`tasks, tasks`view
    {
      |owner| == USER_PAGES && forall u :: 0 <= u < USER_PAGES && owner[u].Some? ==>
        var h := owner[u].value;
        h.task in tasks && Lookup(if h.task == t then view0 else h.task.view, h.page) == Some(UserAddr(u) + PTE_DRAM)
    }

    /** The set bits of the bitmap are the DRAM leaves: no frame was lost by remapping. */
    ghost predicate NoneLost()
      requires Layout()
      reads this`owner, this`tasks, tasks`view
    {
      |owner| == USER_PAGES && forall u :: 0 <= u < USER_PAGES && owner[u].Some? ==>
        var h := owner[u].value;
        h.task in tasks && Lookup(h.task.view, h.page) == Some(UserAddr(u) + PTE_DRAM)
    }

    /** Mapping a fresh frame at an unmapped page loses no frame; owner0 and view0 are as before the call. */
    lemma NoneLostAfter(owner0: seq<Option<Holder>>, t: Task, view0: map<nat, nat>, ipa: nat, u: nat, addr: nat)
      requires Layout() && StillMapped(owner0, t, view0) && t in tasks
      requires Mapped(t, ipa, u, addr, view0, owner0) && PageOf(ipa) !in view0
      ensures NoneLost()
    {
    }

    /** Page g was free and is now a zeroed page outside the tables. */
    ghost predicate Given(words0: seq<nat>, use0: seq<Use<Task>>, addr: nat, g: nat)
      requires Layout()
      reads this`use, heap
    {
      && |words0| == HEAP_WORDS && |use0| == HEAP_PAGES && g < HEAP_PAGES
      && addr == FrameAddr(heapStart, g) && use0[g] == Free && use == use0[g := Other]
      && ZeroPage(heap[..], g)
      && forall s :: 0 <= s < HEAP_WORDS && s / ENTRIES != g ==> heap[s] == words0[s]
    }

    /** Tables and their non-empty entries stay. */
    ghost predicate AddsTo(words0: seq<nat>, use0: seq<Use<Task>>)
      requires Layout()
      reads this`use, heap
    {
      && |words0| == HEAP_WORDS && |use0| == |use| == HEAP_PAGES
      && (forall f :: 0 <= f < HEAP_PAGES && use0[f].Table? ==> use[f] == use0[f])
      && (forall s :: 0 <= s < HEAP_WORDS && use0[s / ENTRIES].Table? && words0[s] != 0 ==> heap[s] == words0[s])
    }

    /** Page g was the lowest free page and is now taken. */
    twostate predicate TookFirst(g: nat)
      reads heapMap
    {
      && heapMap.Length == HEAP_PAGES && g < HEAP_PAGES
      && !old(heapMap[g]) && heapMap[..] == old(heapMap[..])[g := true]
      && forall f :: 0 <= f < g ==> old(heapMap[f])
    }

    /** How many heap pages are free. */
    ghost function FreePages(): nat
      reads heapMap
    {
      |set f | 0 <= f < heapMap.Length && !heapMap[f]|
    }

    /** How many frames can still be handed out: those from the hint on that are not taken. */
    ghost function FramesLeft(): nat
      reads this`nextFree, this`owner
    {
      |NotTaken(owner, nextFree)|
    }

    /** Boot: nothing is taken, whatever the heap and guest memory hold, and no guest exists. */
    constructor (heapStart: nat, userStart: nat, heap: array<nat>, user: array<nat>)
      requires heap.Length == HEAP_WORDS && user.Length == USER_PAGES * FRAME_BYTES && heap != user
      requires HeapOk(heapStart) && userStart % 0x1000 == 0 && 0 < userStart
      requires userStart + 0x1000 * USER_PAGES <= ADDR_LIMIT
      requires heapStart + 0x1000 * HEAP_PAGES <= userStart || userStart + 0x1000 * USER_PAGES <= heapStart
      ensures Valid() && NoneLost() && tasks == {}
      ensures FreePages() == HEAP_PAGES && FramesLeft() == USER_PAGES
      ensures this.heapStart == heapStart && this.userStart == userStart && this.heap == heap && this.user == user
      ensures fresh(heapMap) && fresh(userMap)
    {
      this.heapStart, this.userStart, this.heap, this.user := heapStart, userStart, heap, user;
      heapMap := new bool[HEAP_PAGES](_ => false);
      userMap := new nat[USER_PAGES](_ => 0);
      nextFree, tasks := 0, {};
      use, owner := seq(HEAP_PAGES, _ => Free), seq(USER_PAGES, _ => None);
      new;
      hide HeapOk, Pow2, Bit;
      forall u | 0 <= u < USER_PAGES ensures !Handed(u) {
        ZeroBit(u % 8);
      }
      AllPositions(heapMap[..], false);
      AllPositions(owner, None);
      assert (set f | 0 <= f < heapMap.Length && !heapMap[f]) == Positions(heapMap[..], false);
      assert NotTaken(owner, nextFree) == Positions(owner, None);
    }

    // Kernel heap pages: first fit, one page whatever the size (src/mm/heap).

    method KmmMalloc(size: nat) returns (page: Alloc, ghost g: nat)
      requires Layout()
      modifies heapMap
      ensures page.Null? <==> size < 1
      ensures page.At? ==> TookFirst(g) && page.addr == FrameAddr(heapStart, g)
      ensures page.Panic? <==> size >= 1 && old(FreePages()) == 0
      ensures page.At? ==> FreePages() + 1 == old(FreePages())
      ensures !page.At? ==> heapMap[..] == old(heapMap[..])
    {
      ghost var free0 := set f | 0 <= f < heapMap.Length && !heapMap[f];
      g := 0;
      if size < 1 {
        return Null, 0;
      }
      var i := 0;
      while i < HEAP_PAGES
        invariant i <= HEAP_PAGES
        invariant forall f :: 0 <= f < i ==> heapMap[f]
        invariant heapMap[..] == old(heapMap[..])
      {
        if !heapMap[i] {
          heapMap[i] := true;
          assert free0 == (set f | 0 <= f < heapMap.Length && !heapMap[f]) + {i};
          assert TookFirst(i);
          return At(heapStart + 0x1000 * i), i;
        }
        i := i + 1;
      }
      assert free0 == {};
      return Panic, 0;
    }

    method ZeroHeapPage(g: nat)
      requires Layout() && g < HEAP_PAGES
      modifies heap
      ensures ZeroPage(heap[..], g)
      ensures forall s :: 0 <= s < HEAP_WORDS && s / ENTRIES != g ==> heap[s] == old(heap[s])
    {
      var base := ENTRIES * g;
      var k := 0;
      while k < ENTRIES
        invariant k <= ENTRIES
        invariant forall s :: 0 <= s < HEAP_WORDS && !(base <= s < base + k) ==> heap[s] == old(heap[s])
        invariant forall s :: base <= s < base + k ==> heap[s] == 0
      {
        heap[base + k] := 0;
        k := k + 1;
      }
    }

    method KmmZalloc(size: nat) returns (page: Alloc, ghost g: nat)
      requires Valid()
      modifies this`use, heapMap, heap
      ensures Valid()
      ensures page.Null? <==> size < 1
      ensures page.Panic? <==> size >= 1 && old(FreePages()) == 0
      ensures !page.At? ==> use == old(use) && heap[..] == old(heap[..]) && heapMap[..] == old(heapMap[..])
      ensures page.At? ==> Given(old(heap[..]), old(use), page.addr, g) && FreePages() + 1 == old(FreePages())
    {
      hide TableOk, EntryOk, WalksAsView, LeavesOwned, Counted, BitmapValid, And, Or, Pow2;
      ghost var words0: seq<nat>, use0 := heap[..], use;
      page, g := KmmMalloc(size);
      if page.At? {
        var frame := (page.addr - heapStart) / 0x1000;
        assert frame == g;
        ZeroHeapPage(frame);
        use := use[g := Other];
        AllocOk(heapStart, words0, heap[..], use0, g, Other);
        WalksKept(words0, use0, g, Other);
      }
    }

    /** Walks of all tasks survive a change outside their tables. */
    lemma WalksKept(words: seq<nat>, use0: seq<Use<Task>>, g: nat, other: Use<Task>)
      requires Layout() && TreeOk(heapStart, words, use0) && SameTables(words, heap[..], use0, -1)
      requires g < HEAP_PAGES && !use0[g].Table? && !other.Table? && use == use0[g := other]
      requires AllWalk(words, use0)
      ensures AllWalk(heap[..], use)
    {
      forall t | t in tasks ensures WalksAsView(heap[..], use, t) {
        assert WalksAsView(words, use0, t);
        if t.pageTable != 0 {
          var r :| Rooted(t, use0, r);
          assert Rooted(t, use, r);
          forall p | 0 <= p < IPA_PAGES
            ensures TreeWalk(heapStart, heap[..], t.pageTable, p) == TreeWalk(heapStart, words, t.pageTable, p)
          {
            WalkElsewhere(heapStart, words, heap[..], use0, -1, r, p);
          }
        }
      }
    }

    // Stage-2 tables (src/mm/pgtable_stage2.cc).

    /** Table f, at address `table`, is the task's table of the level on the way to the page. */
    ghost predicate TableFor(t: Task, table: nat, f: nat, level: nat, page: nat)
      requires Layout()
      reads this
    {
      && f < HEAP_PAGES && |use| == HEAP_PAGES && 1 <= level <= 3 && page < IPA_PAGES
      && Covers(use, f, page) && use[f].task == t && use[f].level == level && table == FrameAddr(heapStart, f)
    }

    /** Hangs the zeroed page g under the empty entry k of table f. */
    method LinkTable(f: nat, k: nat, g: nat)
      requires Valid() && f < HEAP_PAGES && k < ENTRIES && g < HEAP_PAGES
      requires use[f].Table? && use[f].level < 3 && use[g] == Other && ZeroPage(heap[..], g)
      requires heap[ENTRIES * f + k] == 0
      modifies this`use, heap
      ensures Valid() && AddsTo(old(heap[..]), old(use))
      ensures use == old(use)[g := ChildUse(old(use[f]), f, k)]
      ensures heap[ENTRIES * f + k] == FrameAddr(heapStart, g) + PTE_TABLE
    {
      hide TreeOk, TableOk, HeapValid, Books, AllWalk, TablesListed, And, Or, Pow2, ZeroPage, AddsTo, HeapOk;
      ghost var words0: seq<nat>, use0 := heap[..], use;
      LinkBefore(f);
      heap[ENTRIES * f + k] := TableEntry(heapStart + 0x1000 * g);
      use := use[g := ChildUse(use[f], f, k)];
      assert heap[..] == words0[ENTRIES * f + k := FrameAddr(heapStart, g) + PTE_TABLE];
      LinkDone(words0, use0, f, k, g);
    }

    lemma LinkBefore(f: nat)
      requires Valid() && f < HEAP_PAGES && use[f].Table?
      ensures TreeOk(heapStart, heap[..], use) && TablesListed(use) && |use| == HEAP_PAGES && 1 <= use[f].level <= 3
      ensures forall h :: 0 <= h < HEAP_PAGES ==> (heapMap[h] <==> use[h] != Free)
      ensures 0 < heapStart && heapStart % 0x1000 == 0 && heapStart + 0x1000 * HEAP_PAGES <= ADDR_LIMIT
    {
      assert TableOk(heapStart, heap[..], use, f);
    }

    lemma LinkDone(words: seq<nat>, use0: seq<Use<Task>>, f: nat, k: nat, g: nat)
      requires Layout() && TreeOk(heapStart, words, use0) && AllWalk(words, use0)
      requires f < HEAP_PAGES && k < ENTRIES && g < HEAP_PAGES && use0[f].Table? && 1 <= use0[f].level < 3
      requires use0[g] == Other && use == use0[g := ChildUse(use0[f], f, k)]
      requires words[ENTRIES * f + k] == 0 && ZeroPage(words, g)
      requires heap[..] == words[ENTRIES * f + k := FrameAddr(heapStart, g) + PTE_TABLE]
      requires TablesListed(use0) && forall h :: 0 <= h < HEAP_PAGES ==> (heapMap[h] <==> use0[h] != Free)
      ensures HeapValid() && AllWalk(heap[..], use) && AddsTo(words, use0)
    {
      LinkTree(heapStart, words, use0, f, k, g);
      LinkWalks(words, use0, f, k, g);
      LinkAdds(words, use0, f, k, g);
      hide TreeOk, AllWalk, ZeroPage, AddsTo, And, Or, Pow2;
    }

    lemma LinkAdds(words: seq<nat>, use0: seq<Use<Task>>, f: nat, k: nat, g: nat)
      requires Layout() && |words| == HEAP_WORDS && |use0| == HEAP_PAGES && f < HEAP_PAGES && k < ENTRIES
      requires g < HEAP_PAGES
      requires use0[f].Table? && use0[f].level < 3 && use0[g] == Other && use == use0[g := ChildUse(use0[f], f, k)]
      requires words[ENTRIES * f + k] == 0 && heap[..] == words[ENTRIES * f + k := FrameAddr(heapStart, g) + PTE_TABLE]
      ensures AddsTo(words, use0)
    {
      forall s | 0 <= s < HEAP_WORDS && use0[s / ENTRIES].Table? && words[s] != 0 ensures heap[s] == words[s] {
        assert heap[..][s] == words[s];
      }
    }

    lemma LinkWalks(words: seq<nat>, use0: seq<Use<Task>>, f: nat, k: nat, g: nat)
      requires Layout() && TreeOk(heapStart, words, use0) && AllWalk(words, use0)
      requires f < HEAP_PAGES && k < ENTRIES && g < HEAP_PAGES && use0[f].Table? && 1 <= use0[f].level < 3
      requires use0[g] == Other && use == use0[g := ChildUse(use0[f], f, k)]
      requires words[ENTRIES * f + k] == 0 && ZeroPage(words, g)
      requires heap[..] == words[ENTRIES * f + k := FrameAddr(heapStart, g) + PTE_TABLE]
      ensures AllWalk(heap[..], use)
    {
      var slot := ENTRIES * f + k;
      assert slot / ENTRIES == f;
      forall t | t in tasks ensures WalksAsView(heap[..], use, t) {
        assert WalksAsView(words, use0, t);
        if t.pageTable != 0 {
          var r :| Rooted(t, use0, r);
          assert Rooted(t, use, r);
          forall p | 0 <= p < IPA_PAGES
            ensures TreeWalk(heapStart, heap[..], t.pageTable, p) == TreeWalk(heapStart, words, t.pageTable, p)
          {
            HangWalk(heapStart, words, heap[..], use0, g, slot, r, p);
          }
        }
      }
    }

    /** The table below `table` for the page, made on demand; None is a PANIC, for want of a free heap page. */
    method CreatePageTable(table: nat, ghost f: nat, level: nat, ipa: nat, ghost t: Task)
      returns (next: Option<nat>, ghost g: nat)
      requires Valid() && t in tasks && level < 3 && TableFor(t, table, f, level, PageOf(ipa))
      modifies this`use, heapMap, heap
      ensures next.None? <==> old(FreePages()) < Lacks(old(use), t, level + 1, PageOf(ipa))
      ensures next.Some? ==> FreePages() + Lacks(old(use), t, level + 1, PageOf(ipa)) == old(FreePages())
      ensures next.Some? ==> Valid() && AddsTo(old(heap[..]), old(use))
      ensures next.Some? ==> Added(old(use), use, t, level + 1, PageOf(ipa))
      ensures next.Some? ==> TableFor(t, next.value, g, level + 1, PageOf(ipa))
      ensures next.Some? ==> heap[ENTRIES * f + IndexOf(PageOf(ipa), level)] == FrameAddr(heapStart, g) + PTE_TABLE
    {
      hide TableOk, EntryOk, WalksAsView, LeavesOwned, Counted, BitmapValid, And, Or, Pow2, VaIndex, IndexOf, TreeWalk;
      hide Has, Added, FreePages;
      ghost var page := PageOf(ipa);
      var index := VaIndex(ipa, level);
      IndexSame(ipa, level);
      EntryAt(heapStart, heap[..], use, f, page);
      RootsOnce();
      EntryIsTable(heapStart, heap[..], use, f, page);
      var frame := (table - heapStart) / 0x1000;
      assert frame == f;
      if heap[ENTRIES * frame + index] == 0 {
        ghost var use0 := use;
        var alloc;
        alloc, g := KmmZalloc(0x1000);
        if !alloc.At? {
          return None, 0;
        }
        LinkTable(frame, index, (alloc.addr - heapStart) / 0x1000);
        ChildCovers(use, f, g, page);
        assert use == use0[g := ChildUse(use0[f], f, index)];
        AddsOne(use0, g, ChildUse(use0[f], f, index), page);
        next := Some(alloc.addr);
      } else {
        g := Step(heapStart, heap[..], use, f, page);
        MaskPage(heapStart, g);
        AddsNone(use, t, level + 1, page);
        next := Some(And(heap[ENTRIES * frame + index], PAGE_MASK));
      }
    }

    lemma RootsOnce()
      requires Layout() && |use| == HEAP_PAGES && TablesListed(use)
      ensures OneRoot(use)
    {
    }

    /** A task has a root table exactly when its page_table is set. */
    lemma RootIsTable(t: Task, page: nat)
      requires Valid() && t in tasks && page < IPA_PAGES
      ensures t.pageTable == 0 <==> Lacks(use, t, 1, page) == 1
    {
      assert |use| == HEAP_PAGES;
      hide TreeOk, BitmapValid, Counted, LeavesOwned;
      assert WalksAsView(heap[..], use, t);
      if t.pageTable != 0 {
        var r :| Rooted(t, use, r);
        RootCovers(r, page);
        assert Has(use, t, 1, page);
      }
      if Has(use, t, 1, page) {
        var f :| 0 <= f < |use| && Covers(use, f, page) && use[f].task == t && use[f].level == 1;
        assert use[f].Table?;
      }
    }

    /** First table of a task. */
    method CreateRoot(t: Task, ghost page: nat) returns (ok: bool)
      requires Valid() && t in tasks && t.pageTable == 0 && page < IPA_PAGES
      modifies this`use, heapMap, heap, t`pageTable
      ensures ok <==> old(FreePages()) > 0
      ensures ok ==> Valid() && t.pageTable != 0 && FreePages() + 1 == old(FreePages())
      ensures ok ==> Added(old(use), use, t, 1, page)
    {
      hide Has, Added, FreePages, Valid, HeapOk;
      ghost var use0 := use;
      var addr, g := KmmZalloc(0x1000);
      ok := addr.At?;
      if ok {
        SetRoot(t, addr.addr, g);
        assert use == use0[g := Table(t, 1, 0, -1)];
        AddsOne(use0, g, Table(t, 1, 0, -1), page);
      }
    }

    method SetRoot(t: Task, addr: nat, ghost g: nat)
      requires Valid() && t in tasks && t.pageTable == 0 && g < HEAP_PAGES && |use| == HEAP_PAGES
      requires use[g] == Other && ZeroPage(heap[..], g) && addr == FrameAddr(heapStart, g)
      modifies this`use, t`pageTable
      ensures Valid() && t.pageTable != 0 && use == old(use)[g := Table(t, 1, 0, -1)]
    {
      hide TreeOk, HeapValid, Books, AllWalk, TablesListed, ZeroPage, Rooted, And, Or, Pow2, WalksAsView;
      ghost var use0 := use;
      RootBefore(t, g);
      t.pageTable := addr;
      use := use[g := Table(t, 1, 0, -1)];
      RootDone(use0, t, g);
    }

    lemma RootBefore(t: Task, g: nat)
      requires Valid() && t in tasks && t.pageTable == 0
      requires g < HEAP_PAGES && |use| == HEAP_PAGES && use[g] == Other && ZeroPage(heap[..], g)
      ensures TreeOk(heapStart, heap[..], use[g := Table(t, 1, 0, -1)])
      ensures t.view == map[] && Books()
      ensures forall h :: 0 <= h < HEAP_PAGES ==> (heapMap[h] <==> use[h] != Free)
      ensures forall f :: 0 <= f < HEAP_PAGES && use[f].Table? ==> use[f].task in tasks
      ensures forall f :: 0 <= f < HEAP_PAGES && use[f].Table? && use[f].level == 1 ==>
                use[f].task != t && use[f].task.pageTable == FrameAddr(heapStart, f)
      ensures forall u :: u in tasks && u != t ==> WalksAsView(heap[..], use, u)
    {
      AllocOk(heapStart, heap[..], heap[..], use, g, Table(t, 1, 0, -1));
      assert Counted(t) && WalksAsView(heap[..], use, t);
      assert forall p :: p in t.view ==> TreeWalk(heapStart, heap[..], 0, p) == Lookup(t.view, p);
      assert t.view.Keys == {};
    }

    lemma RootDone(use0: seq<Use<Task>>, t: Task, g: nat)
      requires Layout() && t in tasks && t.view == map[] && g < HEAP_PAGES && |use0| == HEAP_PAGES && use0[g] == Other
      requires t.pageTable == FrameAddr(heapStart, g) && use == use0[g := Table(t, 1, 0, -1)]
      requires TreeOk(heapStart, heap[..], use) && ZeroPage(heap[..], g)
      requires forall h :: 0 <= h < HEAP_PAGES ==> (heapMap[h] <==> use0[h] != Free)
      requires forall f :: 0 <= f < HEAP_PAGES && use0[f].Table? ==> use0[f].task in tasks
      requires forall f :: 0 <= f < HEAP_PAGES && use0[f].Table? && use0[f].level == 1 ==>
                 use0[f].task != t && use0[f].task.pageTable == FrameAddr(heapStart, f)
      requires forall u :: u in tasks && u != t ==> WalksAsView(heap[..], use0, u)
      ensures HeapValid() && AllWalk(heap[..], use)
    {
      forall u | u in tasks ensures WalksAsView(heap[..], use, u) {
        if u != t {
          assert WalksAsView(heap[..], use0, u);
          if u.pageTable != 0 {
            var r :| Rooted(u, use0, r);
            assert Rooted(u, use, r);
          }
        } else {
          assert Rooted(t, use, g);
          forall p | 0 <= p < IPA_PAGES ensures TreeWalk(heapStart, heap[..], t.pageTable, p) == Lookup(t.view, p) {
            EmptyTable(heapStart, heap[..], g, 1, p);
          }
        }
      }
    }

    /** The three tables a walk of the page passes through. */
    ghost predicate Path(words: seq<nat>, t: Task, page: nat, f1: nat, f2: nat, f3: nat)
      requires Layout()
      reads this`use, t`pageTable
    {
      && |words| == HEAP_WORDS && page < IPA_PAGES && Rooted(t, use, f1) && f2 < HEAP_PAGES && f3 < HEAP_PAGES
      && words[ENTRIES * f1 + IndexOf(page, 1)] == FrameAddr(heapStart, f2) + PTE_TABLE
      && words[ENTRIES * f2 + IndexOf(page, 2)] == FrameAddr(heapStart, f3) + PTE_TABLE
      && use[f2].Table? && use[f2].level == 2
      && Covers(use, f3, page) && use[f3].task == t && use[f3].level == 3
    }

    lemma PathWalk(words: seq<nat>, t: Task, page: nat, f1: nat, f2: nat, f3: nat)
      requires Layout() && Path(words, t, page, f1, f2, f3)
      requires words[ENTRIES * f3 + IndexOf(page, 3)] % 4 == PTE_TABLE
      ensures TreeWalk(heapStart, words, t.pageTable, page) == Some(words[ENTRIES * f3 + IndexOf(page, 3)])
    {
      hide IndexOf, WalkFrom, FrameAddr;
      TableAddress(heapStart, f2);
      TableAddress(heapStart, f3);
      WalkAt(heapStart, words, f1, 1, page);
      WalkAt(heapStart, words, f2, 2, page);
      WalkAt(heapStart, words, f3, 3, page);
      RootAddress(t, f1);
    }

    lemma RootAddress(t: Task, f: nat)
      requires Layout() && Rooted(t, use, f)
      ensures t.pageTable == FrameAddr(heapStart, f) > 0
    {
    }

    /** A leaf written at the end of the path of (t, page) is seen there and nowhere else. */
    lemma LeafWalks(words: seq<nat>, t: Task, page: nat, f1: nat, f2: nat, f3: nat, d: nat, u: Task, p: nat)
      requires Layout() && TreeOk(heapStart, words, use) && Path(words, t, page, f1, f2, f3)
      requires d % 4 == PTE_TABLE && p < IPA_PAGES && (u.pageTable == 0 || exists r :: Rooted(u, use, r))
      ensures var words' := words[ENTRIES * f3 + IndexOf(page, 3) := d];
              TreeWalk(heapStart, words', u.pageTable, p)
              == if u == t && p == page then Some(d) else TreeWalk(heapStart, words, u.pageTable, p)
    {
      if u == t && p == page {
        LeafSeen(words, t, page, f1, f2, f3, d);
      } else if u.pageTable != 0 {
        LeafUnseen(words, t, page, f3, d, u, p);
      }
    }

    lemma LeafSeen(words: seq<nat>, t: Task, page: nat, f1: nat, f2: nat, f3: nat, d: nat)
      requires Layout() && Path(words, t, page, f1, f2, f3) && d % 4 == PTE_TABLE
      ensures TreeWalk(heapStart, words[ENTRIES * f3 + IndexOf(page, 3) := d], t.pageTable, page) == Some(d)
    {
      var slot := EntrySlot(f3, page, 3);
      var s1 := EntrySlot(f1, page, 1);
      var s2 := EntrySlot(f2, page, 2);
      hide IndexOf, TreeWalk, WalkFrom, And, Or, Pow2;
      assert s1 != slot && s2 != slot;
      PathWalk(words[slot := d], t, page, f1, f2, f3);
    }

    lemma LeafUnseen(words: seq<nat>, t: Task, page: nat, f3: nat, d: nat, u: Task, p: nat)
      requires Layout() && TreeOk(heapStart, words, use) && page < IPA_PAGES && p < IPA_PAGES
      requires Covers(use, f3, page) && use[f3].task == t && use[f3].level == 3
      requires u.pageTable != 0 && (exists r :: Rooted(u, use, r)) && !(u == t && p == page)
      ensures TreeWalk(heapStart, words[ENTRIES * f3 + IndexOf(page, 3) := d], u.pageTable, p)
           == TreeWalk(heapStart, words, u.pageTable, p)
    {
      var slot := EntrySlot(f3, page, 3);
      assert SlotFor(use, slot, t, 3, page);
      var r :| Rooted(u, use, r);
      RootCovers(r, p);
      hide IndexOf, Span, Entry, TableOk, EntryOk, And, Or, Pow2;
      forall level | 1 <= level <= 3 ensures !SlotFor(use, slot, u, level, p) {
        if SlotFor(use, slot, u, level, p) {
          LeafSlotDetermines(use, slot, t, page, u, level, p);
        }
      }
      WalkElsewhere(heapStart, words, words[slot := d], use, slot, r, p);
    }

    /**
     MapPage: the walk of (t, page) now gives pa and flags, every other walk is as before. It
     takes a heap page for each table the task lacks, and fails only for want of them.
     */
    method MapPage(t: Task, ipa: nat, pa: nat, flags: nat) returns (ok: bool)
      requires Valid() && t in tasks && pa % 0x1000 == 0 && pa < ADDR_LIMIT
      requires flags == PTE_DRAM || flags == PTE_DEVICE_NO_ACCESS || flags == PTE_DEVICE_ACCESS
      requires flags == PTE_DRAM ==>
                 exists u :: 0 <= u < USER_PAGES && pa == UserAddr(u) && owner[u] == Some(Holder(t, PageOf(ipa)))
      modifies this`use, heapMap, heap, t
      ensures ok <==> old(FreePages()) >= Missing(old(use), t, PageOf(ipa))
      ensures ok ==> FreePages() + Missing(old(use), t, PageOf(ipa)) == old(FreePages())
      ensures ok ==> AddedAll(old(use), use, t, PageOf(ipa))
      ensures ok ==> Valid() && t.view == old(t.view)[PageOf(ipa) := pa + flags]
      ensures ok ==> (Translation(this, t, ipa / 0x1000) == Some(pa + flags) <==> ipa < 0x10_0000_0000)
      ensures ok ==> t.pages == old(t.pages) + 1 && t.pageFaults == old(t.pageFaults) && t.faults == old(t.faults)
      ensures ok ==> t.loadedPages == old(t.loadedPages) + (if flags == PTE_DRAM then 1 else 0)
      ensures ok ==> t.devicePages == old(t.devicePages) + (if flags == PTE_DRAM then 0 else 1)
      ensures ok ==> t.remaps == old(t.remaps) + (if PageOf(ipa) in old(t.view) then 1 else 0)
      ensures old(t.pageTable) != 0 ==> t.pageTable == old(t.pageTable)
    {
      hide TreeOk, HeapValid, AllWalk, BitmapValid, LeavesOwned, Path, And, Or, Pow2, Has, Added, AddedAll, FreePages;
      ghost var page := PageOf(ipa);
      ghost var use0 := use;
      RootIsTable(t, page);
      ok := true;
      if t.pageTable == 0 {
        ok := CreateRoot(t, page);
      } else {
        AddsNone(use, t, 1, page);
      }
      if ok {
        ghost var use1 := use;
        var lv3, f1, f2, f3, use2 := TablesFor(t, ipa);
        ok := lv3.Some?;
        AddsUpTo(use0, use1, t, page);
        if ok {
          AddsThree(use0, use1, use2, use, t, page);
          t.pages := t.pages + 1;
          SetPageTableEntry(lv3.value, ipa, pa, flags, t, f1, f2, f3);
          FoundAt(t, ipa);
        }
      }
    }

    /** The hardware finds what was mapped for an address exactly if the address is in its reach. */
    lemma FoundAt(t: Task, ipa: nat)
      requires Valid() && t in tasks && PageOf(ipa) in t.view
      ensures Translation(this, t, ipa / 0x1000) == Some(t.view[PageOf(ipa)]) <==> ipa < IPA_LIMIT
    {
      Reached(this, t, ipa / 0x1000);
      hide Valid, TreeWalk;
    }

    lemma AddsUpTo(use0: seq<Use<Task>>, use1: seq<Use<Task>>, t: Task, page: nat)
      requires Added(use0, use1, t, 1, page) && page < IPA_PAGES
      ensures Lacks(use1, t, 2, page) == Lacks(use0, t, 2, page) && Lacks(use1, t, 3, page) == Lacks(use0, t, 3, page)
    {
      hide Has;
    }

    /** The tables of levels 2 and 3 for an IPA, made where missing; use2 is the state between the two. */
    method TablesFor(t: Task, ipa: nat)
      returns (lv3: Option<nat>, ghost f1: nat, ghost f2: nat, ghost f3: nat, ghost use2: seq<Use<Task>>)
      requires Valid() && t in tasks && t.pageTable != 0
      modifies this`use, heapMap, heap
      ensures lv3.Some? <==>
              old(FreePages()) >= Lacks(old(use), t, 2, PageOf(ipa)) + Lacks(old(use), t, 3, PageOf(ipa))
      ensures lv3.Some? ==>
                Valid() && Path(heap[..], t, PageOf(ipa), f1, f2, f3) && lv3.value == FrameAddr(heapStart, f3)
      ensures lv3.Some? ==>
                FreePages() + Lacks(old(use), t, 2, PageOf(ipa)) + Lacks(old(use), t, 3, PageOf(ipa))
                == old(FreePages())
      ensures lv3.Some? ==>
                Added(old(use), use2, t, 2, PageOf(ipa)) && Added(use2, use, t, 3, PageOf(ipa))
    {
      hide Valid, HeapOk, IndexOf, And, Or, Pow2, Path, Has, FreePages, Rooted, Layout;
      ghost var page := PageOf(ipa);
      f1 := RootOf(t, page);
      var lv2;
      lv3, f3 := None, 0;
      lv2, f2 := CreatePageTable(t.pageTable, f1, 1, ipa, t);
      use2 := use;
      if lv2.Some? {
        ghost var s1 := EntrySlot(f1, page, 1);
        ghost var s2 := EntrySlot(f2, page, 2);
        lv3, f3 := CreatePageTable(lv2.value, f2, 2, ipa, t);
        if lv3.Some? {
          assert heap[s1] == FrameAddr(heapStart, f2) + PTE_TABLE;
          PathReady(t, page, f1, f2, f3, s1, s2);
        }
      }
    }

    lemma PathReady(t: Task, page: nat, f1: nat, f2: nat, f3: nat, s1: nat, s2: nat)
      requires Layout() && page < IPA_PAGES && Rooted(t, use, f1) && f2 < HEAP_PAGES && f3 < HEAP_PAGES
      requires s1 == ENTRIES * f1 + IndexOf(page, 1) < HEAP_WORDS && s2 == ENTRIES * f2 + IndexOf(page, 2) < HEAP_WORDS
      requires heap[s1] == FrameAddr(heapStart, f2) + PTE_TABLE && heap[s2] == FrameAddr(heapStart, f3) + PTE_TABLE
      requires use[f2].Table? && use[f2].level == 2 && Covers(use, f3, page) && use[f3].task == t && use[f3].level == 3
      ensures Path(heap[..], t, page, f1, f2, f3)
    {
    }

    lemma RootOf(t: Task, page: nat) returns (r: nat)
      requires Valid() && t in tasks && t.pageTable != 0 && page < IPA_PAGES
      ensures Layout() && Rooted(t, use, r) && TableFor(t, t.pageTable, r, 1, page)
    {
      assert WalksAsView(heap[..], use, t);
      r :| Rooted(t, use, r);
      RootCovers(r, page);
    }

    lemma EntrySlot(f: nat, page: nat, level: nat) returns (s: nat)
      requires 1 <= level <= 3 && f < HEAP_PAGES
      ensures s == ENTRIES * f + IndexOf(page, level) < HEAP_WORDS && s / ENTRIES == f
    {
      s := ENTRIES * f + IndexOf(page, level);
    }

    lemma RootCovers(f: nat, page: nat)
      requires Layout() && page < IPA_PAGES && f < HEAP_PAGES && |use| == HEAP_PAGES
      requires use[f].Table? && use[f].level == 1 && use[f].first == 0
      ensures Covers(use, f, page)
    {
    }

    method SetPageTableEntry(table: nat, ipa: nat, pa: nat, flags: nat, ghost t: Task, ghost f1: nat,
                             ghost f2: nat, ghost f3: nat)
      requires Layout() && HeapValid() && AllWalk(heap[..], use) && BitmapValid() && t in tasks
      requires forall u :: u in tasks ==> LeavesOwned(u) && (u != t ==> Counted(u))
      requires CountedAs(t, t.pages - 1)
      requires Path(heap[..], t, PageOf(ipa), f1, f2, f3) && table == FrameAddr(heapStart, f3)
      requires pa % 0x1000 == 0 && pa < ADDR_LIMIT
      requires flags == PTE_DRAM || flags == PTE_DEVICE_NO_ACCESS || flags == PTE_DEVICE_ACCESS
      requires flags == PTE_DRAM ==>
                 exists u :: 0 <= u < USER_PAGES && pa == UserAddr(u) && owner[u] == Some(Holder(t, PageOf(ipa)))
      modifies heap, t`view, t`remaps, t`devicePages, t`loadedPages
      ensures Valid() && t.view == old(t.view)[PageOf(ipa) := pa + flags]
      ensures t.remaps == old(t.remaps) + (if PageOf(ipa) in old(t.view) then 1 else 0)
      ensures t.loadedPages == old(t.loadedPages) + (if flags == PTE_DRAM then 1 else 0)
      ensures t.devicePages == old(t.devicePages) + (if flags == PTE_DRAM then 0 else 1)
    {
      hide TreeOk, AllWalk, LeavesOwned, BitmapValid, And, Or, Pow2, VaIndex, IndexOf, Path, LeafOk, CountedAs;
      hide PageOf, FrameAddr, TablesListed, Lookup;
      ghost var words0: seq<nat> := heap[..];
      LeafSlot(table, ipa, t, f1, f2, f3);
      var index := VaIndex(ipa, 3);
      var frame := (table - heapStart) / 0x1000;
      LeafWord(pa, flags);
      heap[ENTRIES * frame + index] := Or(pa, flags);
      assert heap[..] == words0[ENTRIES * f3 + index := pa + flags];
      LeafHeap(words0, t, PageOf(ipa), f1, f2, f3, pa + flags);
      EnterView(t, PageOf(ipa), pa, flags);
    }

    /** Where the leaf for an address is written. */
    lemma LeafSlot(table: nat, ipa: nat, t: Task, f1: nat, f2: nat, f3: nat)
      requires Layout() && HeapValid()
      requires Path(heap[..], t, PageOf(ipa), f1, f2, f3) && table == FrameAddr(heapStart, f3)
      ensures VaIndex(ipa, 3) == IndexOf(PageOf(ipa), 3) && table >= heapStart && (table - heapStart) / 0x1000 == f3
      ensures ENTRIES * f3 + IndexOf(PageOf(ipa), 3) < heap.Length == HEAP_WORDS && PageOf(ipa) < IPA_PAGES
    {
      hide TreeOk, VaIndex, IndexOf, TablesListed;
      IndexSame(ipa, 3);
      PathSlots(heap[..], t, PageOf(ipa), f1, f2, f3);
    }

    /** Walks agree with the views, view0 standing for the view of t, but (t, page) gives d. */
    ghost predicate WalksAhead(view0: map<nat, nat>, t: Task, page: nat, d: nat)
      requires Layout()
      reads this`use, this`tasks, heap, tasks`pageTable, tasks`view
    {
      forall u :: u in tasks ==> WalkAhead(if u == t then view0[page := d] else u.view, u)
    }

    ghost predicate WalkAhead(view: map<nat, nat>, u: Task)
      requires Layout()
      reads this`use, heap, u`pageTable
    {
      && (u.pageTable == 0 || exists r :: Rooted(u, use, r))
      && forall p :: 0 <= p < IPA_PAGES ==> TreeWalk(heapStart, heap[..], u.pageTable, p) == Lookup(view, p)
    }

    lemma LeafHeap(words: seq<nat>, t: Task, page: nat, f1: nat, f2: nat, f3: nat, d: nat)
      requires Layout() && TreeOk(heapStart, words, use) && Path(words, t, page, f1, f2, f3)
      requires d % 4 == PTE_TABLE && LeafOk(d) && d < WORD && AllWalk(words, use) && TablesListed(use)
      requires forall h :: 0 <= h < HEAP_PAGES ==> (heapMap[h] <==> use[h] != Free)
      requires heap[..] == words[ENTRIES * f3 + IndexOf(page, 3) := d]
      ensures HeapValid() && WalksAhead(t.view, t, page, d)
    {
      LeafTree(words, use, f3, IndexOf(page, 3), d);
      forall u | u in tasks ensures WalkAhead(if u == t then t.view[page := d] else u.view, u) {
        assert WalksAsView(words, use, u);
        forall p | 0 <= p < IPA_PAGES
          ensures TreeWalk(heapStart, heap[..], u.pageTable, p) ==
                  if u == t && p == page then Some(d) else Lookup(u.view, p)
        {
          LeafWalks(words, t, page, f1, f2, f3, d, u, p);
        }
      }
    }

    /** Books the new leaf in the task's view. */
    ghost method EnterView(t: Task, page: nat, pa: nat, flags: nat)
      requires Layout() && HeapValid() && WalksAhead(t.view, t, page, pa + flags) && BitmapValid() && t in tasks
      requires page < IPA_PAGES
      requires forall u :: u in tasks ==> LeavesOwned(u) && (u != t ==> Counted(u))
      requires CountedAs(t, t.pages - 1) && pa % 0x1000 == 0
      requires flags == PTE_DRAM || flags == PTE_DEVICE_NO_ACCESS || flags == PTE_DEVICE_ACCESS
      requires flags == PTE_DRAM ==>
                 exists u :: 0 <= u < USER_PAGES && pa == UserAddr(u) && owner[u] == Some(Holder(t, page))
      modifies t`view, t`remaps, t`devicePages, t`loadedPages
      ensures Valid() && t.view == old(t.view)[page := pa + flags]
      ensures t.remaps == old(t.remaps) + (if page in old(t.view) then 1 else 0)
      ensures t.loadedPages == old(t.loadedPages) + (if flags == PTE_DRAM then 1 else 0)
      ensures t.devicePages == old(t.devicePages) + (if flags == PTE_DRAM then 0 else 1)
    {
      hide TreeOk, LeavesOwnedIn, BitmapValid, WalkAhead, TablesListed, WalksAsView, And, Or, Pow2, HeapValid;
      hide HeapOk, DramPages, Sums;
      ghost var view0 := t.view;
      LeavesAfter(t, page, pa, flags);
      SumsAfter(t.pages, t.view, t.remaps, t.devicePages, t.loadedPages, t.pageFaults, page, pa, flags);
      t.remaps := t.remaps + (if page in t.view then 1 else 0);
      if flags == PTE_DRAM {
        t.loadedPages := t.loadedPages + 1;
      } else {
        t.devicePages := t.devicePages + 1;
      }
      t.view := t.view[page := pa + flags];
      assert WalksAhead(view0, t, page, pa + flags);
      EnterDone(view0, t, page, pa + flags);
    }

    lemma SumsAfter(pages: nat, view: map<nat, nat>, remaps: nat, devices: nat, loaded: nat, faulted: nat,
                    page: nat, pa: nat, flags: nat)
      requires Sums(pages - 1, view, remaps, devices, loaded, faulted) && page < IPA_PAGES
      requires pa % 0x1000 == 0 && flags < 0x1000
      ensures Sums(pages, view[page := pa + flags], remaps + (if page in view then 1 else 0),
                   devices + (if flags == PTE_DRAM then 0 else 1),
                   loaded + (if flags == PTE_DRAM then 1 else 0), faulted)
    {
      DramAfter(view, page, pa, flags);
      hide DramPages;
      assert view[page := pa + flags].Keys == view.Keys + {page};
    }

    lemma EnterDone(view0: map<nat, nat>, t: Task, page: nat, d: nat)
      requires Layout() && WalksAhead(view0, t, page, d) && t.view == view0[page := d]
      ensures AllWalk(heap[..], use)
    {
      forall u | u in tasks ensures WalksAsView(heap[..], use, u) {
        assert WalkAhead(u.view, u);
      }
    }

    lemma PathSlots(words: seq<nat>, t: Task, page: nat, f1: nat, f2: nat, f3: nat)
      requires Layout() && Path(words, t, page, f1, f2, f3)
      ensures ENTRIES * f3 + IndexOf(page, 3) < HEAP_WORDS && use[f3].Table? && use[f3].level == 3
    {
    }

    lemma LeafTree(words: seq<nat>, use: seq<Use<Task>>, f: nat, k: nat, d: nat)
      requires TreeOk(heapStart, words, use) && f < HEAP_PAGES && k < ENTRIES
      requires use[f].Table? && use[f].level == 3 && LeafOk(d) && d < WORD
      ensures TreeOk(heapStart, words[ENTRIES * f + k := d], use)
    {
      LeafOkay(heapStart, words, use, f, k, d);
    }

    lemma DramAfter(view: map<nat, nat>, page: nat, pa: nat, flags: nat)
      requires pa % 0x1000 == 0 && flags < 0x1000
      ensures page !in view ==>
                |DramPages(view[page := pa + flags])| == |DramPages(view)| + (if flags == PTE_DRAM then 1 else 0)
    {
      Quotient(pa + flags, 0x1000, pa / 0x1000, flags);
      if page !in view {
        assert DramPages(view[page := pa + flags]) ==
               DramPages(view) + (if flags == PTE_DRAM then {page} else {});
      }
    }

    /** The owned leaves after the new one is entered in the view. */
    lemma LeavesAfter(t: Task, page: nat, pa: nat, flags: nat)
      requires Layout() && LeavesOwned(t) && pa % 0x1000 == 0
      requires flags == PTE_DRAM || flags == PTE_DEVICE_NO_ACCESS || flags == PTE_DEVICE_ACCESS
      requires flags == PTE_DRAM ==>
                 exists u :: 0 <= u < USER_PAGES && pa == UserAddr(u) && owner[u] == Some(Holder(t, page))
      ensures LeavesOwnedIn(owner, t, t.view[page := pa + flags])
    {
      Quotient(pa + flags, 0x1000, pa / 0x1000, flags);
    }

    /** A heap page taken without clearing it (operator new, queue buffers). */
    method KmmTake(size: nat) returns (page: Alloc)
      requires Valid()
      modifies this`use, heapMap
      ensures Valid()
      ensures page.At? ==> exists g :: 0 <= g < HEAP_PAGES && old(use[g]) == Free && use == old(use)[g := Other]
      ensures page.Null? <==> size < 1
      ensures page.Panic? <==> size >= 1 && old(FreePages()) == 0
      ensures page.At? ==> FreePages() + 1 == old(FreePages())
    {
      hide TableOk, WalksAsView, LeavesOwned, Counted, BitmapValid, And, Or, Pow2;
      ghost var g;
      page, g := KmmMalloc(size);
      if page.At? {
        ghost var use0 := use;
        use := use[g := Other];
        AllocOk(heapStart, heap[..], heap[..], use0, g, Other);
        WalksKept(heap[..], use0, g, Other);
      }
    }

    /** Giving back a page that is no table; it is the next one handed out unless a lower page is free. */
    method KmmFree(addr: nat, ghost g: nat)
      requires Valid() && g < HEAP_PAGES && use[g] == Other && addr == FrameAddr(heapStart, g)
      modifies this`use, heapMap
      ensures Valid() && use == old(use)[g := Free]
      ensures heapMap[..] == old(heapMap[..])[g := false]
    {
      hide TableOk, WalksAsView, LeavesOwned, Counted, BitmapValid, And, Or, Pow2;
      ghost var use0 := use;
      heapMap[(addr - heapStart) / 0x1000] := false;
      use := use[g := Free];
      AllocOk(heapStart, heap[..], heap[..], use0, g, Free);
      WalksKept(heap[..], use0, g, Free);
    }

    // User frames: a bitmap scanned from a hint (src/mm/user_heap).

    lemma BitmapAfter(map0: seq<nat>, i: nat)
      requires Layout() && |map0| == USER_PAGES && i < USER_PAGES
      requires forall j :: 0 <= j < USER_PAGES ==> map0[j] < 0x100
      requires userMap[..] == map0[i / 8 := Or(map0[i / 8], Pow2(i % 8))]
      ensures forall j :: 0 <= j < USER_PAGES ==> userMap[j] < 0x100
      ensures forall u :: 0 <= u < USER_PAGES ==> (Handed(u) <==> u == i || Bit(map0[u / 8], u % 8) == 1)
    {
      hide Or, Pow2;
      SetDigit(map0[i / 8], i % 8);
      forall u | 0 <= u < USER_PAGES ensures Handed(u) <==> u == i || Bit(map0[u / 8], u % 8) == 1 {
        assert userMap[u / 8] == userMap[..][u / 8];
      }
    }

    lemma OwnersAfter(owner0: seq<Option<Holder>>, i: nat, h: Holder)
      requires Layout() && |owner0| == USER_PAGES && i < USER_PAGES && owner0[i].None? && owner == owner0[i := Some(h)]
      requires forall t :: t in tasks ==> LeavesOwnedIn(owner0, t, t.view)
      ensures forall t :: t in tasks ==> LeavesOwned(t)
    {
      forall t | t in tasks ensures LeavesOwned(t) {
        assert LeavesOwnedIn(owner0, t, t.view);
        forall p | p in t.view && t.view[p] % 0x1000 == PTE_DRAM
          ensures exists u ::
                    0 <= u < USER_PAGES && t.view[p] == UserAddr(u) + PTE_DRAM && owner[u] == Some(Holder(t, p))
        {
          var u :| 0 <= u < USER_PAGES && t.view[p] == UserAddr(u) + PTE_DRAM && owner0[u] == Some(Holder(t, p));
          assert owner[u] == owner0[u];
        }
      }
    }

    /** Sets the bit of a free frame, which moves the hint behind it and books it for the holder. */
    method TakeFrame(i: nat, ghost h: Holder)
      requires Layout() && Books() && nextFree <= i < USER_PAGES && owner[i].None?
      modifies this`nextFree, this`owner, userMap
      ensures Books() && nextFree == i + 1 && owner == old(owner)[i := Some(h)]
    {
      hide Counted, Or, Pow2, Bit;
      SetDigit(userMap[i / 8], i % 8);
      ghost var map0 := userMap[..];
      userMap[i / 8] := Or(userMap[i / 8], Pow2(i % 8));
      nextFree := i + 1;
      assert userMap[..] == map0[i / 8 := Or(map0[i / 8], Pow2(i % 8))];
      BitmapAfter(map0, i);
      ghost var owner0 := owner;
      owner := owner[i := Some(h)];
      OwnersAfter(owner0, i, h);
    }

    /** The lowest free frame not below the hint; it is booked for the holder. */
    method UmmMalloc(size: nat, ghost h: Holder) returns (page: Alloc, ghost u: nat)
      requires Valid()
      modifies this`nextFree, this`owner, userMap
      ensures Valid()
      ensures page.Null? <==> size < 0x1000 || size % 0x1000 != 0
      ensures page.Panic? <==> size >= 0x1000 && size % 0x1000 == 0 && old(FramesLeft()) == 0
      ensures page.At? ==> FramesLeft() + 1 == old(FramesLeft())
      ensures !page.At? ==> owner == old(owner) && nextFree == old(nextFree)
      ensures page.At? ==>
                && old(nextFree) <= u < USER_PAGES && page.addr == UserAddr(u) && nextFree == u + 1
                && old(owner[u]).None? && owner == old(owner)[u := Some(h)]
                && forall v :: old(nextFree) <= v < u ==> owner[v].Some?
    {
      hide HeapValid, AllWalk, Counted, And, Or, Pow2, Bit, NotTaken;
      u := 0;
      if size < 0x1000 {
        return Null, 0;
      }
      if size % 0x1000 != 0 {
        return Null, 0;
      }
      var i := nextFree;
      while i < USER_PAGES
        invariant old(nextFree) == nextFree <= i <= USER_PAGES
        invariant Books() && owner == old(owner)
        invariant forall v :: nextFree <= v < i ==> owner[v].Some?
      {
        var bit := Pow2(i % 8);
        AndPow2(userMap[i / 8], i % 8);
        if And(userMap[i / 8], bit) == 0 {
          TakesFirst(owner, nextFree, i, h);
          TakeFrame(i, h);
          return At(userStart + 0x1000 * i), i;
        }
        i := i + 1;
      }
      NoneLeft(owner, nextFree);
      page := Panic;
    }

    lemma BitsOfOwners()
      requires Layout() && BitmapValid()
      ensures forall u :: 0 <= u < USER_PAGES ==> (Bit(userMap[u / 8], u % 8) == 1 <==> owner[u].Some?)
    {
      hide Bit;
      forall u | 0 <= u < USER_PAGES ensures Bit(userMap[u / 8], u % 8) == 1 <==> owner[u].Some? {
        assert Handed(u) <==> owner[u].Some?;
      }
    }

    lemma BitmapWithout(map0: seq<nat>, i: nat, owner0: seq<Option<Holder>>)
      requires Layout() && |map0| == |owner0| == USER_PAGES && i < USER_PAGES
      requires forall u :: 0 <= u < USER_PAGES ==> (Bit(map0[u / 8], u % 8) == 1 <==> owner0[u].Some?)
      requires forall j :: 0 <= j < USER_PAGES ==> map0[j] < 0x100
      requires userMap[..] == map0[i / 8 := Bic(map0[i / 8], Pow2(i % 8))]
      ensures forall j :: 0 <= j < USER_PAGES ==> userMap[j] < 0x100
      ensures forall u :: 0 <= u < USER_PAGES ==> (Handed(u) <==> u != i && owner0[u].Some?)
    {
      hide Bic, Pow2, Bit;
      ClearDigit(map0[i / 8], i % 8);
      forall u | 0 <= u < USER_PAGES ensures Handed(u) <==> u != i && owner0[u].Some? {
        assert userMap[u / 8] == userMap[..][u / 8];
        assert Bit(map0[u / 8], u % 8) == 1 <==> owner0[u].Some?;
      }
    }

    lemma OwnersWithout(owner0: seq<Option<Holder>>, i: nat)
      requires Layout() && |owner0| == USER_PAGES && i < USER_PAGES && owner == owner0[i := None]
      requires forall t :: t in tasks ==> LeavesOwnedIn(owner0, t, t.view) && Unmapped(t, i)
      ensures forall t :: t in tasks ==> LeavesOwned(t)
    {
      forall t | t in tasks ensures LeavesOwned(t) {
        assert LeavesOwnedIn(owner0, t, t.view);
        forall p | p in t.view && t.view[p] % 0x1000 == PTE_DRAM
          ensures exists u ::
                    0 <= u < USER_PAGES && t.view[p] == UserAddr(u) + PTE_DRAM && owner[u] == Some(Holder(t, p))
        {
          var u :| 0 <= u < USER_PAGES && t.view[p] == UserAddr(u) + PTE_DRAM && owner0[u] == Some(Holder(t, p));
          assert owner[u] == owner0[u];
        }
      }
    }

    /** No leaf of the task points at the frame. */
    ghost predicate Unmapped(t: Task, u: nat)
      reads t`view
    {
      forall p :: p in t.view ==> t.view[p] != UserAddr(u) + PTE_DRAM
    }

    /**
     umm_free of a frame no guest maps. Only the bit is cleared; the hint stays above the
     frame, so no later UmmMalloc, which starts at the hint, hands it out again.
     */
    method UmmFree(addr: nat, ghost u: nat)
      requires Valid() && u < nextFree && addr == UserAddr(u)
      requires forall t :: t in tasks ==> Unmapped(t, u)
      modifies this`owner, userMap
      ensures Valid() && owner == old(owner)[u := None] && !Handed(u) && FramesLeft() == old(FramesLeft())
      ensures forall v :: 0 <= v < USER_PAGES && v != u ==> (Handed(v) <==> old(Handed(v)))
    {
      hide HeapValid, AllWalk, Counted, LeavesOwnedIn, Unmapped, Handed, NotTaken, HeapOk;
      ghost var owner0 := owner;
      ClearFrame((addr - userStart) / 0x1000);
      owner := owner[u := None];
      FreedBelow(owner0, nextFree, u);
      OwnersWithout(owner0, u);
    }

    /** Clears the bit of a frame. */
    method ClearFrame(page: nat)
      requires Layout() && BitmapValid() && page < USER_PAGES
      modifies userMap
      ensures forall j :: 0 <= j < USER_PAGES ==> userMap[j] < 0x100
      ensures forall u :: 0 <= u < USER_PAGES ==> (Handed(u) <==> u != page && owner[u].Some?)
    {
      hide Handed, Bic, Pow2, Bit;
      BitsOfOwners();
      ghost var map0: seq<nat> := userMap[..];
      userMap[page / 8] := Bic(userMap[page / 8], Pow2(page % 8));
      assert userMap[..] == map0[page / 8 := Bic(map0[page / 8], Pow2(page % 8))];
      BitmapWithout(map0, page, owner);
    }

    ghost predicate FrameZero(u: nat)
      requires Layout() && u < USER_PAGES
      reads user
    {
      forall b :: FRAME_BYTES * u <= b < FRAME_BYTES * u + FRAME_BYTES ==> user[b] == 0
    }

    /** Guest memory outside frame u is as it was. */
    ghost predicate SameOutside(bytes0: seq<nat>, u: nat)
      reads user
    {
      |bytes0| == user.Length &&
      forall b :: 0 <= b < user.Length && !(FRAME_BYTES * u <= b < FRAME_BYTES * u + FRAME_BYTES) ==>
        user[b] == bytes0[b]
    }

    /** umm_zalloc of one page. */
    method PageAllocate(ghost h: Holder) returns (page: Alloc, ghost u: nat)
      requires Valid()
      modifies this`nextFree, this`owner, userMap, user
      ensures Valid() && !page.Null?
      ensures page.Panic? <==> old(FramesLeft()) == 0
      ensures page.At? ==> FramesLeft() + 1 == old(FramesLeft())
      ensures page.At? ==>
                && old(nextFree) <= u < USER_PAGES && page.addr == UserAddr(u) && nextFree == u + 1
                && old(owner[u]).None? && owner == old(owner)[u := Some(h)]
                && FrameZero(u)
      ensures page.At? ==> SameOutside(old(user[..]), u)
    {
      hide FramesLeft;
      page, u := UmmMalloc(0x1000, h);
      if page.At? {
        ZeroFrame((page.addr - userStart) / 0x1000);
      }
    }

    method ZeroFrame(u: nat)
      requires Layout() && u < USER_PAGES
      modifies user
      ensures FrameZero(u)
      ensures SameOutside(old(user[..]), u)
    {
      var base := FRAME_BYTES * u;
      var k := 0;
      while k < FRAME_BYTES
        invariant k <= FRAME_BYTES
        invariant forall b :: base <= b < base + k ==> user[b] == 0
        invariant forall b :: 0 <= b < user.Length && !(base <= b < base + FRAME_BYTES) ==> user[b] == old(user[b])
      {
        user[base + k] := 0;
        k := k + 1;
      }
    }

    /** PgTableStage1::PageMap: a fresh zeroed frame behind an IPA. */
    method PageMap(t: Task, ipa: nat) returns (page: Alloc, ghost u: nat)
      requires Valid() && t in tasks
      modifies this`use, this`nextFree, this`owner, heapMap, heap, userMap, user, t
      ensures page.At? <==> old(FramesLeft()) > 0 && old(FreePages()) >= Missing(old(use), t, PageOf(ipa))
      ensures page.At? ==> Took(t, ipa, old(FramesLeft()), old(FreePages()), old(use))
      ensures page.At? ==> Valid() && Mapped(t, ipa, u, page.addr, old(t.view), old(owner))
      ensures page.At? ==> old(nextFree) <= u < nextFree
      ensures page.At? ==> PageOf(ipa) in t.view && IsPage(t.view[PageOf(ipa)], page.addr / 0x1000, 15, 3)
      ensures page.At? ==> t.pages == old(t.pages) + 1 && t.loadedPages == old(t.loadedPages) + 1
      ensures page.At? ==> t.pageFaults == old(t.pageFaults) && t.faults == old(t.faults)
      ensures page.At? ==> t.devicePages == old(t.devicePages)
      ensures page.At? ==> t.remaps == old(t.remaps) + (if PageOf(ipa) in old(t.view) then 1 else 0)
      ensures old(t.pageTable) != 0 ==> t.pageTable == old(t.pageTable)
      ensures page.At? ==> FrameZero(u)
      ensures page.At? ==> SameOutside(old(user[..]), u)
      ensures page.At? && old(NoneLost()) && PageOf(ipa) !in old(t.view) ==> NoneLost()
    {
      hide FrameZero, SameOutside, PageOf, Lookup, UserAddr, IsPage, HeapValid, AllWalk, LeavesOwned, Counted, Handed;
      hide FreePages, FramesLeft, Missing, AddedAll;
      assert Layout() && |owner| == USER_PAGES;
      hide Valid;
      ghost var owner0, view0 := owner, t.view;
      page, u := PageAllocate(Holder(t, PageOf(ipa)));
      if page.At? {
        UserAligned(this, u);
        LeafReads(page.addr, PTE_DRAM);
        var ok := MapPage(t, ipa, page.addr, PTE_DRAM);
        if !ok {
          page := Panic;
        } else if old(NoneLost()) && PageOf(ipa) !in view0 {
          NoneLostAfter(owner0, t, view0, ipa, u, page.addr);
        }
      }
    }

    /** What a page mapped takes: one frame, and a heap page for every table the task lacked for it. */
    ghost predicate Took(t: Task, ipa: nat, frames0: nat, pages0: nat, use0: seq<Use<Task>>)
      reads this`nextFree, this`owner, this`use, heapMap
    {
      && FramesLeft() + 1 == frames0 && FreePages() + Missing(use0, t, PageOf(ipa)) == pages0
      && AddedAll(use0, use, t, PageOf(ipa))
    }

    /** Frame u, free before, is now behind the IPA and booked for it; t.remaps counts hits on a mapped page. */
    ghost predicate Mapped(t: Task, ipa: nat, u: nat, addr: nat, view0: map<nat, nat>, owner0: seq<Option<Holder>>)
      requires Layout()
      reads this`owner, t`view
    {
      && |owner0| == USER_PAGES && u < USER_PAGES && addr == UserAddr(u) && owner0[u].None?
      && owner == owner0[u := Some(Holder(t, PageOf(ipa)))]
      && t.view == view0[PageOf(ipa) := UserAddr(u) + PTE_DRAM]
    }

    /**
     Translation fault of a guest (src/mm/kmm_trap.cc). It is handled unless the frames from
     the hint on, or the heap pages for the tables still missing, are used up.
     */
    method HandleMmTrapMemoryAccessFault(t: Task, addr: nat) returns (ok: bool, ghost u: nat)
      requires Valid() && t in tasks && addr < WORD
      modifies this`use, this`nextFree, this`owner, heapMap, heap, userMap, user, t
      ensures ok <==> old(FramesLeft()) > 0 && old(FreePages()) >= Missing(old(use), t, PageOf(addr))
      ensures ok ==> Took(t, addr, old(FramesLeft()), old(FreePages()), old(use))
      ensures ok ==> Valid() && Mapped(t, addr, u, UserAddr(u), old(t.view), old(owner))
      ensures ok ==> PageOf(addr) in t.view && IsPage(t.view[PageOf(addr)], UserAddr(u) / 0x1000, 15, 3)
      ensures ok ==> old(nextFree) <= u < nextFree && t.pages == old(t.pages) + 1
      ensures ok ==> t.pageFaults == old(t.pageFaults) + 1
      ensures ok ==> t.devicePages == old(t.devicePages) && t.loadedPages == old(t.loadedPages)
      ensures old(t.pageTable) != 0 ==> t.pageTable == old(t.pageTable)
      ensures ok ==> t.faults == old(t.faults) + [addr / 0x1000]
      ensures ok ==> t.remaps == old(t.remaps) + (if PageOf(addr) in old(t.view) then 1 else 0)
      ensures ok ==> FrameZero(u)
      ensures ok ==> SameOutside(old(user[..]), u)
      ensures ok && old(NoneLost()) && PageOf(addr) !in old(t.view) ==> NoneLost()
    {
      hide FrameZero, SameOutside, PageOf, Lookup, UserAddr, IsPage, HeapValid, AllWalk, LeavesOwned, Counted, Handed;
      hide FreePages, FramesLeft, Missing, AddedAll;
      assert Layout() && |owner| == USER_PAGES;
      hide Valid;
      ghost var owner0, view0 := owner, t.view;
      ok := false;
      var page;
      page, u := PageAllocate(Holder(t, PageOf(addr)));
      if page.At? {
        ok := MapNewPage(t, addr, page.addr, u);
        if ok && old(NoneLost()) && PageOf(addr) !in view0 {
          NoneLostAfter(owner0, t, view0, addr, u, page.addr);
        }
      }
    }

    lemma FrameAligned(u: nat)
      requires Valid() && u < USER_PAGES
      ensures |owner| == USER_PAGES && UserAddr(u) % 0x1000 == 0 && UserAddr(u) < ADDR_LIMIT
    {
      UserAligned(this, u);
    }

    lemma PageIs(ipa: nat)
      ensures PageOf(ipa) == ipa / 0x1000 % IPA_PAGES
    {
    }

    /** MapNewPage followed by the page_faults count of its only caller. */
    method MapNewPage(t: Task, ipa: nat, page: nat, ghost u: nat) returns (ok: bool)
      requires Valid() && t in tasks && ipa < WORD
      requires u < USER_PAGES && page == UserAddr(u) && owner[u] == Some(Holder(t, PageOf(ipa)))
      modifies this`use, heapMap, heap, t
      ensures ok ==> Valid() && t.view == old(t.view)[PageOf(ipa) := page + PTE_DRAM]
      ensures ok ==> IsPage(t.view[PageOf(ipa)], page / 0x1000, 15, 3)
      ensures ok <==> old(FreePages()) >= Missing(old(use), t, PageOf(ipa))
      ensures ok ==> FreePages() + Missing(old(use), t, PageOf(ipa)) == old(FreePages())
      ensures ok ==> AddedAll(old(use), use, t, PageOf(ipa))
      ensures ok ==> t.pages == old(t.pages) + 1 && t.pageFaults == old(t.pageFaults) + 1
      ensures ok ==> t.devicePages == old(t.devicePages) && t.loadedPages == old(t.loadedPages)
      ensures old(t.pageTable) != 0 ==> t.pageTable == old(t.pageTable)
      ensures ok ==> t.faults == old(t.faults) + [ipa / 0x1000]
      ensures ok ==> t.remaps == old(t.remaps) + (if PageOf(ipa) in old(t.view) then 1 else 0)
    {
      hide *;
      FrameAligned(u);
      PageIs(ipa);
      MaskSame(ipa);
      LeafReads(page, PTE_DRAM);
      ok := MapPage(t, And(ipa, PAGE_MASK), page, PTE_DRAM);
      if ok {
        CountFault(t, ipa / 0x1000);
      }
    }

    method CountFault(t: Task, ghost page: nat)
      requires Valid() && t in tasks && t.loadedPages > 0 && page % IPA_PAGES in t.view
      modifies t`pageFaults, t`faults, t`loadedPages
      ensures t.faults == old(t.faults) + [page]
      ensures Valid() && t.pageFaults == old(t.pageFaults) + 1 && t.loadedPages == old(t.loadedPages) - 1
    {
      hide HeapValid, AllWalk, LeavesOwned, BitmapValid;
      t.pageFaults := t.pageFaults + 1;
      t.faults := t.faults + [page];
      t.loadedPages := t.loadedPages - 1;
    }

    method MapNewDevicePage(t: Task, ipa: nat, pa: nat, accessible: bool) returns (ok: bool)
      requires Valid() && t in tasks && ipa < WORD && pa % 0x1000 == 0 && pa < ADDR_LIMIT
      modifies this`use, heapMap, heap, t
      ensures ok <==> old(FreePages()) >= Missing(old(use), t, PageOf(ipa))
      ensures ok ==> FreePages() + Missing(old(use), t, PageOf(ipa)) == old(FreePages())
      ensures ok ==> AddedAll(old(use), use, t, PageOf(ipa))
      ensures ok ==> Valid() && t.view == old(t.view)[PageOf(ipa) := pa + DeviceFlags(accessible)]
      ensures ok ==> IsPage(t.view[PageOf(ipa)], pa / 0x1000, 0, if accessible then 3 else 0)
      ensures ok ==> t.pages == old(t.pages) + 1 && t.devicePages == old(t.devicePages) + 1
      ensures ok ==> t.pageFaults == old(t.pageFaults) && t.faults == old(t.faults)
      ensures ok ==> t.loadedPages == old(t.loadedPages)
      ensures old(t.pageTable) != 0 ==> t.pageTable == old(t.pageTable)
      ensures ok ==> t.remaps == old(t.remaps) + (if PageOf(ipa) in old(t.view) then 1 else 0)
    {
      hide FreePages, Missing, AddedAll, IsPage;
      MaskSame(ipa);
      LeafReads(pa, DeviceFlags(accessible));
      ok := MapPage(t, And(ipa, PAGE_MASK), pa, DeviceFlags(accessible));
    }

    // Creating a guest (src/kernel/sched/sched_create_task.cc, src/platforms/qemu/board_qemu.cc).

    /** The device windows of a QEMU guest: distributor, virtual CPU interface, UART. */
    ghost function DeviceLeaf(page: nat): Option<nat> {
      if 0x8000 <= page < 0x8010 || page == 0x9000 then Some(0x1000 * page + PTE_DEVICE_NO_ACCESS)
      else if 0x8010 <= page < 0x8012 then Some(0x1000 * page + 0x3_0000 + PTE_DEVICE_ACCESS)
      else None
    }

    /** The n pages from `first` on lie in one 2 MiB block; their addresses are in [start, end), shift higher. */
    ghost predicate IsRange(start: nat, end: nat, shift: nat, first: nat, n: nat) {
      && 0 < n && first / 0x200 == (first + n - 1) / 0x200 && end <= 0x1000_0000
      && start == 0x1000 * first + shift && end == start + 0x1000 * n && shift % 0x1000 == 0
    }

    /** The loop over [start, end): page pa is mapped at pa - shift. Only the first page can want tables. */
    method MapDeviceRange(t: Task, start: nat, end: nat, shift: nat, accessible: bool, ghost first: nat, ghost n: nat)
      returns (ok: bool)
      requires Valid() && t in tasks && IsRange(start, end, shift, first, n)
      requires forall p :: first <= p < first + n ==> Lookup(t.view, p) == None
      modifies this`use, heapMap, heap, t
      ensures ok <==> old(FreePages()) >= Missing(old(use), t, first)
      ensures ok ==> FreePages() + Missing(old(use), t, first) == old(FreePages())
      ensures ok ==> AddedAll(old(use), use, t, first)
      ensures ok ==> Valid() && t.remaps == old(t.remaps) && t.loadedPages == old(t.loadedPages)
      ensures ok ==> t.pageFaults == old(t.pageFaults) && t.faults == old(t.faults)
      ensures ok ==> t.pages == old(t.pages) + n && t.devicePages == old(t.devicePages) + n
      ensures ok ==> RangeMapped(t.view, old(t.view), first, n, shift, accessible)
    {
      hide Valid, And, PageOf, RangeMapped, Lookup, FreePages, Missing, AddedAll, IsRange;
      ghost var orig, faults0 := t.view, t.faults;
      ghost var use0, free0: nat, want := use, FreePages(), Missing(use, t, first);
      RangeStart(orig, start, end, shift, first, n, accessible);
      ok := true;
      var pa := start;
      ghost var k := 0;
      while pa < end
        invariant k <= n && pa == start + 0x1000 * k
        invariant k == 0 ==> use == use0 && FreePages() == free0
        invariant k > 0 ==> AddedAll(use0, use, t, first) && FreePages() + want == free0
        invariant Valid() && t.remaps == old(t.remaps) && t.loadedPages == old(t.loadedPages)
        invariant t.pageFaults == old(t.pageFaults) && t.faults == faults0
        invariant t.pages == old(t.pages) + k && t.devicePages == old(t.devicePages) + k
        invariant RangeMapped(t.view, orig, first, k, shift, accessible)
      {
        RangeNext(t.view, orig, first, k, shift, accessible, n);
        ghost var view0, use1 := t.view, use;
        RangePage(start, end, shift, first, n, k);
        if k > 0 {
          NoneMissing(use0, use1, t, first, first + k);
        }
        ok := MapNewDevicePage(t, pa - shift, pa, accessible);
        if !ok {
          return;
        }
        if k > 0 {
          AddsSame(use0, use1, use, t, first, first + k);
        }
        RangeStep(view0, t.view, orig, first, k, shift, accessible);
        pa := pa + 0x1000;
        k := k + 1;
      }
    }

    /** All pages of the range are served by the tables of the first one. */
    lemma RangePage(start: nat, end: nat, shift: nat, first: nat, n: nat, k: nat)
      requires IsRange(start, end, shift, first, n) && k < n
      ensures SameBlocks(first + k, first) && first + k < IPA_PAGES
      ensures (start + 0x1000 * k) % 0x1000 == 0 && start + 0x1000 * k < 0x1000_0000
      ensures start + 0x1000 * k - shift == 0x1000 * (first + k) && 0x1000 * (first + k) < WORD
    {
      BlocksBySize(first + k, first);
      var h := shift / 0x1000;
      Quotient(start + 0x1000 * k, 0x1000, first + h + k, 0);
    }

    /** n device pages from `first` entered in a view. */
    ghost predicate RangeMapped(view: map<nat, nat>, view0: map<nat, nat>, first: nat, n: nat, shift: nat,
                                accessible: bool) {
      forall p :: 0 <= p < IPA_PAGES ==>
        Lookup(view, p) == if first <= p < first + n then Some(0x1000 * p + shift + DeviceFlags(accessible))
                           else Lookup(view0, p)
    }

    lemma RangeStep(view0: map<nat, nat>, view1: map<nat, nat>, orig: map<nat, nat>, first: nat, n: nat,
                    shift: nat, accessible: bool)
      requires RangeMapped(view0, orig, first, n, shift, accessible)
      requires view1 == view0[first + n := 0x1000 * (first + n) + shift + DeviceFlags(accessible)]
      ensures RangeMapped(view1, orig, first, n + 1, shift, accessible)
    {
      hide DeviceFlags;
      forall p | 0 <= p < IPA_PAGES
        ensures Lookup(view1, p) ==
                if first <= p < first + (n + 1) then Some(0x1000 * p + shift + DeviceFlags(accessible))
                else Lookup(orig, p)
      {
        assert Lookup(view0, p) == if first <= p < first + n then Some(0x1000 * p + shift + DeviceFlags(accessible))
                                   else Lookup(orig, p);
      }
    }

    lemma RangeStart(view: map<nat, nat>, start: nat, end: nat, shift: nat, first: nat, n: nat, accessible: bool)
      requires IsRange(start, end, shift, first, n)
      ensures 0 < n && end == start + 0x1000 * n && first + n <= IPA_PAGES
      ensures RangeMapped(view, view, first, 0, shift, accessible)
    {
    }

    lemma RangeNext(view: map<nat, nat>, orig: map<nat, nat>, first: nat, n: nat, shift: nat, accessible: bool,
                    pages: nat)
      requires RangeMapped(view, orig, first, n, shift, accessible) && n < pages && first + pages <= IPA_PAGES
      requires forall p :: first <= p < first + pages ==> Lookup(orig, p) == None
      ensures first + n !in view && PageOf(0x1000 * (first + n)) == first + n
    {
      assert Lookup(view, first + n) == Lookup(orig, first + n);
    }

    /** Console and two queues with their buffers, then the device windows: five pages and four tables. */
    method BoardInit(t: Task) returns (ok: bool)
      requires Valid() && t in tasks && t.view == map[] && t.pageTable == 0
      modifies this`use, heapMap, heap, t
      ensures ok <==> old(FreePages()) >= 9
      ensures ok ==> Valid() && FreePages() + 9 == old(FreePages())
      ensures ok ==> t.remaps == old(t.remaps) && t.loadedPages == old(t.loadedPages)
      ensures ok ==> t.pageFaults == old(t.pageFaults) && t.faults == old(t.faults)
      ensures ok ==> t.pages == old(t.pages) + 19 && t.devicePages == old(t.devicePages) + 19
      ensures ok ==> forall p :: 0 <= p < IPA_PAGES ==> Lookup(t.view, p) == DeviceLeaf(p)
      ensures ok ==> forall p: nat :: p < IPA_PAGES ==>
                if 0x8000 <= p < 0x8010 || p == 0x9000 then p in t.view && IsPage(t.view[p], p, 0, 0)
                else if 0x8010 <= p < 0x8012 then p in t.view && IsPage(t.view[p], p + 0x30, 0, 3)
                else p !in t.view
    {
      hide Valid, FreePages, Lookup, DeviceLeaf;
      var i := 0;
      while i < 5
        invariant i <= 5 && Valid() && FreePages() + i == old(FreePages())
        modifies this`use, heapMap
      {
        var page := KmmTake(1);
        if !page.At? {
          return false;
        }
        i := i + 1;
      }
      ok := MapDevices(t);
      if ok {
        DevicesRead(t.view);
      }
    }

    /** The device windows as the hardware reads their leaves. */
    lemma DevicesRead(view: map<nat, nat>)
      requires forall p :: 0 <= p < IPA_PAGES ==> Lookup(view, p) == DeviceLeaf(p)
      ensures forall p: nat :: p < IPA_PAGES ==>
                if 0x8000 <= p < 0x8010 || p == 0x9000 then p in view && IsPage(view[p], p, 0, 0)
                else if 0x8010 <= p < 0x8012 then p in view && IsPage(view[p], p + 0x30, 0, 3)
                else p !in view
    {
      hide IsPage, DeviceLeaf;
      forall p: nat | p < IPA_PAGES
        ensures if 0x8000 <= p < 0x8010 || p == 0x9000 then p in view && IsPage(view[p], p, 0, 0)
                else if 0x8010 <= p < 0x8012 then p in view && IsPage(view[p], p + 0x30, 0, 3)
                else p !in view
      {
        DeviceRead(p);
        assert Lookup(view, p) == DeviceLeaf(p);
      }
    }

    lemma DeviceRead(page: nat)
      ensures var leaf := DeviceLeaf(page);
              if 0x8000 <= page < 0x8010 || page == 0x9000 then leaf.Some? && IsPage(leaf.value, page, 0, 0)
              else if 0x8010 <= page < 0x8012 then leaf.Some? && IsPage(leaf.value, page + 0x30, 0, 3)
              else leaf == None
    {
      hide IsPage;
      if page < 0x1_0000 {
        LeafReads(0x1000 * page, PTE_DEVICE_NO_ACCESS);
        LeafReads(0x1000 * (page + 0x30), PTE_DEVICE_ACCESS);
      }
    }

    /** The three windows: distributor, virtual CPU interface, UART. */
    method MapDevices(t: Task) returns (ok: bool)
      requires Valid() && t in tasks && t.view == map[] && t.pageTable == 0
      modifies this`use, heapMap, heap, t
      ensures ok <==> old(FreePages()) >= 4
      ensures ok ==> Valid() && FreePages() + 4 == old(FreePages())
      ensures ok ==> t.remaps == old(t.remaps) && t.loadedPages == old(t.loadedPages)
      ensures ok ==> t.pageFaults == old(t.pageFaults) && t.faults == old(t.faults)
      ensures ok ==> t.pages == old(t.pages) + 19 && t.devicePages == old(t.devicePages) + 19
      ensures ok ==> forall p :: 0 <= p < IPA_PAGES ==> Lookup(t.view, p) == DeviceLeaf(p)
    {
      hide Valid, FreePages, Lookup, DeviceLeaf, RangeMapped, Missing, AddedAll;
      ghost var use0, view0 := use, t.view;
      EmptyView(view0);
      NoTables(t, 0x8000);
      NoTables(t, 0x9000);
      ok := MapDeviceRange(t, 0x800_0000, 0x801_0000, 0, false, 0x8000, 0x10);
      if ok {
        ghost var use1, view1 := use, t.view;
        NextRange(use0, use1, t);
        Apart(view1, view0, 0x8000, 0x10, 0, false);
        ok := MapDeviceRange(t, 0x804_0000, 0x804_2000, 0x3_0000, true, 0x8010, 2);
        if ok {
          ghost var view2 := t.view;
          LastRange(use0, use1, use, t);
          Apart(view2, view1, 0x8010, 2, 0x3_0000, true);
          ok := MapDeviceRange(t, 0x900_0000, 0x900_1000, 0, false, 0x9000, 1);
          if ok {
            DevicesMapped(view0, view1, view2, t.view);
          }
        }
      }
    }

    lemma EmptyView(view: map<nat, nat>)
      requires view == map[]
      ensures forall p :: 0 <= p < IPA_PAGES ==> Lookup(view, p) == None
    {
    }

    /** Pages outside a range stay unmapped. */
    lemma Apart(view: map<nat, nat>, view0: map<nat, nat>, first: nat, n: nat, shift: nat, accessible: bool)
      requires RangeMapped(view, view0, first, n, shift, accessible)
      ensures forall p :: 0 <= p < IPA_PAGES && !(first <= p < first + n) ==> Lookup(view, p) == Lookup(view0, p)
    {
    }

    lemma DevicesMapped(view0: map<nat, nat>, view1: map<nat, nat>, view2: map<nat, nat>, view: map<nat, nat>)
      requires view0 == map[] && RangeMapped(view1, view0, 0x8000, 0x10, 0, false)
      requires RangeMapped(view2, view1, 0x8010, 2, 0x3_0000, true)
      requires RangeMapped(view, view2, 0x9000, 1, 0, false)
      ensures forall p :: 0 <= p < IPA_PAGES ==> Lookup(view, p) == DeviceLeaf(p)
    {
    }

    lemma NoTables(t: Task, page: nat)
      requires Valid() && t in tasks && t.pageTable == 0 && page < IPA_PAGES
      ensures Missing(use, t, page) == 3
    {
      RootIsTable(t, page);
      hide TreeOk, Has;
      NoRoot(heapStart, heap[..], use, t, 2, page);
      NoRoot(heapStart, heap[..], use, t, 3, page);
    }

    lemma NextRange(use0: seq<Use<Task>>, use1: seq<Use<Task>>, t: Task)
      requires AddedAll(use0, use1, t, 0x8000)
      ensures Missing(use1, t, 0x8010) == 0
    {
      NoneMissing(use0, use1, t, 0x8000, 0x8010);
    }

    /** The UART's page has the root and the level-2 table, but lies in a 2 MiB block of its own. */
    lemma LastRange(use0: seq<Use<Task>>, use1: seq<Use<Task>>, use2: seq<Use<Task>>, t: Task)
      requires AddedAll(use0, use1, t, 0x8000) && AddedAll(use1, use2, t, 0x8010)
      requires Missing(use0, t, 0x9000) == 3
      ensures Missing(use2, t, 0x9000) == 1
    {
      hide Has, AddedAll;
      AddsSame(use0, use1, use2, t, 0x8000, 0x8010);
      LastLacks(use0, use2, t);
    }

    lemma LastLacks(use0: seq<Use<Task>>, use2: seq<Use<Task>>, t: Task)
      requires AddedAll(use0, use2, t, 0x8000) && Missing(use0, t, 0x9000) == 3
      ensures Missing(use2, t, 0x9000) == 1
    {
      hide Has;
      assert SameBlock(1, 0x9000, 0x8000) && SameBlock(2, 0x9000, 0x8000) && !SameBlock(3, 0x9000, 0x8000);
    }

    /**
     The new guest sees its device windows and nothing else. It costs ten heap pages; null is
     a PANIC, exactly when there are not as many.
     */
    method CreateTask() returns (t: Task?, base: nat)
      requires Valid()
      modifies this`use, this`tasks, heapMap, heap
      ensures t != null <==> old(FreePages()) >= 10
      ensures t != null ==> Valid() && fresh(t) && tasks == old(tasks) + {t} && FreePages() + 10 == old(FreePages())
      ensures t != null ==> forall p :: 0 <= p < IPA_PAGES ==> Lookup(t.view, p) == DeviceLeaf(p)
      ensures t != null ==> forall p: nat :: p < IPA_PAGES ==>
                if 0x8000 <= p < 0x8010 || p == 0x9000 then p in t.view && IsPage(t.view[p], p, 0, 0)
                else if 0x8010 <= p < 0x8012 then p in t.view && IsPage(t.view[p], p + 0x30, 0, 3)
                else p !in t.view
      ensures t != null ==> t.pages == t.devicePages == 19
      ensures t != null ==> t.remaps == t.loadedPages == t.pageFaults == 0 && t.faults == []
      ensures t != null && old(NoneLost()) ==> NoneLost()
      ensures t != null ==> t.pageTable != 0 && heapStart <= base < heapStart + 0x1000 * HEAP_PAGES
    {
      hide HeapValid, AllWalk, BitmapValid, LeavesOwned, Counted, Lookup, DeviceLeaf, Handed, FreePages;
      assert Layout();
      hide Valid;
      t, base := null, 0;
      var page, g := KmmZalloc(0x1000);
      if page.At? {
        var task := new Task();
        AddEmptyTask(task);
        var ok := BoardInit(task);
        if ok {
          t, base := task, page.addr;
          DevicesHaveRoot(task);
        }
      }
    }

    /** A task that sees anything has a root table. */
    lemma DevicesHaveRoot(t: Task)
      requires Valid() && t in tasks && forall p :: 0 <= p < IPA_PAGES ==> Lookup(t.view, p) == DeviceLeaf(p)
      ensures t.pageTable != 0
    {
      assert WalksAsView(heap[..], use, t);
      assert Lookup(t.view, 0x9000) == DeviceLeaf(0x9000);
    }

    ghost method AddEmptyTask(t: Task)
      requires Valid() && t.pageTable == 0 && t.view == map[] && t.faults == []
      requires t.pages == t.remaps == t.pageFaults == t.devicePages == t.loadedPages == 0
      modifies this`tasks
      ensures Valid() && tasks == old(tasks) + {t}
    {
      assert forall p :: 0 <= p < IPA_PAGES ==> TreeWalk(heapStart, heap[..], 0, p) == Lookup(t.view, p);
      assert WalksAsView(heap[..], use, t);
      assert forall u :: u in tasks ==> WalksAsView(heap[..], use, u);
      assert DramPages(t.view) == {};
      hide WalksAsView, TreeOk, BitmapValid;
      tasks := tasks + {t};
    }
  }

  // What the invariant says about the hardware's view.

  /** What the hardware finds for a page, that is for the addresses x with x / 0x1000 == page. */
  ghost function Translation(m: Memory, t: Task, page: nat): Option<nat>
    reads m.heap, t`pageTable
  {
    HardwareWalk(m.heapStart, m.heap[..], t.pageTable, page)
  }

  /** What the tables hold for a page, in reach of the hardware or not. */
  ghost function TableLeaf(m: Memory, t: Task, page: nat): Option<nat>
    reads m.heap, t`pageTable
  {
    TreeWalk(m.heapStart, m.heap[..], t.pageTable, page)
  }

  /** The tables hold the task's view, and the hardware finds it exactly below its input size. */
  lemma Reached(m: Memory, t: Task, page: nat)
    requires m.Valid() && t in m.tasks
    ensures page < IPA_PAGES ==> TableLeaf(m, t, page) == Lookup(t.view, page)
    ensures Translation(m, t, page) == if page < S2_PAGES then Lookup(t.view, page) else None
  {
    assert m.WalksAsView(m.heap[..], m.use, t);
  }

  /**
   Below its input size the hardware faults only at a page that no fault was handled for
   before, so there no page faults twice. From there on a page faults again and again: what
   is handled for it never reaches the hardware.
   */
  lemma NoSecondFault(m: Memory, t: Task, page: nat)
    requires m.Valid() && t in m.tasks && Translation(m, t, page) == None
    ensures page < S2_PAGES ==> page !in t.faults
    ensures FaultedOnce(t.faults) ==> FaultedOnce(t.faults + [page])
  {
    hide *;
    Reached(m, t, page);
    if page < S2_PAGES {
      NotListed(m, t, page);
    }
    OnceMore(t.faults, page);
  }

  lemma NotListed(m: Memory, t: Task, page: nat)
    requires m.Valid() && t in m.tasks && Lookup(t.view, page) == None && page < S2_PAGES
    ensures page !in t.faults
  {
    hide Memory.HeapValid, Memory.AllWalk, Memory.BitmapValid;
    assert m.Counted(t);
  }

  lemma OnceMore(s: seq<nat>, page: nat)
    requires page < S2_PAGES ==> page !in s
    ensures FaultedOnce(s) ==> FaultedOnce(s + [page])
  {
  }

  /** No page in reach of the hardware is listed twice. */
  ghost predicate FaultedOnce(s: seq<nat>) {
    forall i, j :: 0 <= i < j < |s| && s[i] < S2_PAGES ==> s[i] != s[j]
  }

  /** Two walks that end on the same DRAM frame are the same walk: no frame is shared. */
  lemma FramesNotShared(m: Memory, t1: Task, p1: nat, t2: Task, p2: nat, d: nat)
    requires m.Valid() && t1 in m.tasks && t2 in m.tasks
    requires Translation(m, t1, p1) == Some(d) == Translation(m, t2, p2) && d % 0x1000 == PTE_DRAM
    ensures t1 == t2 && p1 == p2
  {
    hide Memory.Valid, TreeWalk;
    LeavesNotShared(m, t1, p1, t2, p2, d);
  }

  /** Nor by leaves that are out of the hardware's reach. */
  lemma LeavesNotShared(m: Memory, t1: Task, p1: nat, t2: Task, p2: nat, d: nat)
    requires m.Valid() && t1 in m.tasks && t2 in m.tasks && p1 < IPA_PAGES && p2 < IPA_PAGES
    requires TableLeaf(m, t1, p1) == Some(d) == TableLeaf(m, t2, p2) && d % 0x1000 == PTE_DRAM
    ensures t1 == t2 && p1 == p2
  {
    hide Memory.Valid, TableLeaf;
    var u1 := DramFrame(m, t1, p1, d);
    var u2 := DramFrame(m, t2, p2, d);
    assert m.UserAddr(u1) == m.UserAddr(u2);
  }

  /** A DRAM leaf leads to a user frame handed out for it, and so never into the heap. */
  lemma DramFrame(m: Memory, t: Task, page: nat, d: nat) returns (u: nat)
    requires m.Valid() && t in m.tasks && page < IPA_PAGES
    requires TableLeaf(m, t, page) == Some(d) && d % 0x1000 == PTE_DRAM
    ensures m.Layout() && |m.owner| == USER_PAGES && u < USER_PAGES
    ensures d == m.UserAddr(u) + PTE_DRAM && m.Handed(u) && m.owner[u] == Some(Holder(t, page))
    ensures !(m.heapStart <= d - PTE_DRAM < m.heapStart + 0x1000 * HEAP_PAGES)
  {
    Reached(m, t, page);
    assert m.LeavesOwned(t);
    u :| 0 <= u < USER_PAGES && t.view[page] == m.UserAddr(u) + PTE_DRAM && m.owner[u] == Some(Holder(t, page));
  }

  /** Entry k of table f holds the address of heap page g. */
  ghost predicate Points(m: Memory, f: nat, k: nat, g: nat)
    requires m.Layout()
    reads m`use, m.heap
  {
    && |m.use| == HEAP_PAGES && f < HEAP_PAGES && k < ENTRIES && g < HEAP_PAGES
    && m.use[f].Table? && m.use[f].level < 3
    && m.heap[ENTRIES * f + k] == FrameAddr(m.heapStart, g) + PTE_TABLE
  }

  /**
   A heap page used as a table is its task's root, and then no entry of any guest points at
   it, or it hangs from exactly one entry, f and k, of a table of the same task, and then it
   is nobody's root.
   */
  lemma TablesNotShared(m: Memory, g: nat) returns (f: nat, k: nat)
    requires m.Valid() && g < HEAP_PAGES && m.use[g].Table?
    ensures m.use[g].task in m.tasks
    ensures m.use[g].level > 1 ==>
              Points(m, f, k, g) && m.use[f].task == m.use[g].task && m.use[f].level + 1 == m.use[g].level
    ensures forall f1, k1 :: Points(m, f1, k1, g) ==> m.use[g].level > 1 && f1 == f && k1 == k
    ensures forall t :: t in m.tasks ==>
              (t.pageTable == FrameAddr(m.heapStart, g) <==> t == m.use[g].task && m.use[g].level == 1)
  {
    var words: seq<nat> := m.heap[..];
    assert TableOk(m.heapStart, words, m.use, g);
    f, k := 0, 0;
    hide EntryOk;
    if m.use[g].level > 1 {
      f, k := m.use[g].parent / ENTRIES, m.use[g].parent % ENTRIES;
    }
    forall f1, k1 | Points(m, f1, k1, g) ensures m.use[g].level > 1 && f1 == f && k1 == k {
      PointsDown(m, f1, k1, g);
      if m.use[g].level > 1 {
        OneParent(m.heapStart, words, m.use, f1, k1, f, k);
      }
    }
    forall t | t in m.tasks
      ensures t.pageTable == FrameAddr(m.heapStart, g) <==> t == m.use[g].task && m.use[g].level == 1
    {
      assert m.WalksAsView(words, m.use, t);
    }
  }

  /** What an entry points at is a table of the same task, one level down. */
  lemma PointsDown(m: Memory, f: nat, k: nat, g: nat)
    requires m.Valid() && Points(m, f, k, g)
    ensures m.use[g].Table? && m.use[g].task == m.use[f].task && m.use[g].level == m.use[f].level + 1
  {
    assert TableOk(m.heapStart, m.heap[..], m.use, f);
    assert EntryOk(m.heapStart, m.heap[..], m.use, f, k);
  }

  /**
   With no frame lost, the set bits are exactly the DRAM leaves of all tasks, and a guest
   reaches the frame exactly if the page it was handed out for is in reach of the hardware.
   */
  lemma BitsAreLeaves(m: Memory, u: nat)
    requires m.Valid() && m.NoneLost() && u < USER_PAGES
    ensures |m.owner| == USER_PAGES && (m.Handed(u) <==> m.owner[u].Some?)
    ensures m.Handed(u) <==>
            exists t, page ::
              t in m.tasks && 0 <= page < IPA_PAGES && TableLeaf(m, t, page) == Some(m.UserAddr(u) + PTE_DRAM)
    ensures m.Handed(u) && m.owner[u].value.page < S2_PAGES <==>
            exists t, page :: t in m.tasks && Translation(m, t, page) == Some(m.UserAddr(u) + PTE_DRAM)
  {
    hide HeapOk, TreeWalk, Bit;
    if m.Handed(u) {
      HandedIsLeaf(m, u);
    }
    if t, page :| t in m.tasks && 0 <= page < IPA_PAGES && TableLeaf(m, t, page) == Some(m.UserAddr(u) + PTE_DRAM) {
      LeafIsHanded(m, u, t, page);
    }
    if t, page :| t in m.tasks && Translation(m, t, page) == Some(m.UserAddr(u) + PTE_DRAM) {
      LeafIsHanded(m, u, t, page);
    }
  }

  lemma HandedIsLeaf(m: Memory, u: nat)
    requires m.Valid() && m.NoneLost() && u < USER_PAGES && m.Handed(u)
    ensures |m.owner| == USER_PAGES && m.owner[u].Some?
    ensures var h := m.owner[u].value;
            && h.task in m.tasks && h.page < IPA_PAGES
            && TableLeaf(m, h.task, h.page) == Some(m.UserAddr(u) + PTE_DRAM)
            && (h.page < S2_PAGES ==> Translation(m, h.task, h.page) == Some(m.UserAddr(u) + PTE_DRAM))
  {
    var h := m.owner[u].value;
    assert m.Counted(h.task);
    Reached(m, h.task, h.page);
  }

  lemma UserAligned(m: Memory, u: nat)
    requires m.Layout() && u < USER_PAGES
    ensures m.UserAddr(u) % 0x1000 == 0 && m.UserAddr(u) < ADDR_LIMIT
  {
    Quotient(m.UserAddr(u), 0x1000, m.userStart / 0x1000 + u, 0);
  }

  lemma LeafIsHanded(m: Memory, u: nat, t: Task, page: nat)
    requires m.Valid() && u < USER_PAGES && t in m.tasks && page < IPA_PAGES
    requires TableLeaf(m, t, page) == Some(m.UserAddr(u) + PTE_DRAM)
    ensures m.Handed(u) && |m.owner| == USER_PAGES && m.owner[u] == Some(Holder(t, page))
  {
    UserAligned(m, u);
    LeafWord(m.UserAddr(u), PTE_DRAM);
    hide TreeWalk, And, Or, Pow2;
    var v := DramFrame(m, t, page, m.UserAddr(u) + PTE_DRAM);
  }

  /**
   mm.pages counts the valid leaves if and only if no MapPage call hit a mapped page. It is
   the sum of device pages, loaded pages and page faults, and without such a call the DRAM
   leaves are the loaded and the faulted pages.
   */
  lemma PagesCountLeaves(m: Memory, t: Task)
    requires m.Valid() && t in m.tasks
    ensures t.view.Keys == set p | 0 <= p < IPA_PAGES && TableLeaf(m, t, p).Some?
    ensures t.pages == |t.view.Keys| <==> t.remaps == 0
    ensures t.pages == t.devicePages + t.loadedPages + t.pageFaults
    ensures DramPages(t.view) ==
            set p | 0 <= p < IPA_PAGES && TableLeaf(m, t, p).Some? && TableLeaf(m, t, p).value % 0x1000 == PTE_DRAM
    ensures t.remaps == 0 ==> |DramPages(t.view)| == t.loadedPages + t.pageFaults
  {
    hide TreeWalk, TableLeaf;
    assert m.Counted(t);
    forall p | 0 <= p < IPA_PAGES ensures TableLeaf(m, t, p) == Lookup(t.view, p) {
      Reached(m, t, p);
    }
    assert |t.view| == |t.view.Keys|;
  }

  /** Masking a word with PAGE_MASK clears its offset in the page. */
  lemma PageMask(x: nat)
    requires x < WORD
    ensures And(x, PAGE_MASK) == x / 0x1000 * 0x1000
  {
    hide And, Pow2;
    Powers();
    SmallPowers();
    AndConst(x, PAGE_MASK, 0x1000, 0x10_0000_0000_0000, 12, 52);
    assert x / 0x1000 < 0x10_0000_0000_0000;
  }

  lemma MaskSame(ipa: nat)
    requires ipa < WORD
    ensures PageOf(And(ipa, PAGE_MASK)) == PageOf(ipa) && And(ipa, PAGE_MASK) < WORD
  {
    hide And;
    PageMask(ipa);
    Quotient(ipa / 0x1000 * 0x1000, 0x1000, ipa / 0x1000, 0);
  }

  lemma LeafWord(pa: nat, flags: nat)
    requires pa % 0x1000 == 0 && pa < ADDR_LIMIT
    requires flags == PTE_DRAM || flags == PTE_DEVICE_NO_ACCESS || flags == PTE_DEVICE_ACCESS
    ensures Or(pa, flags) == pa + flags && pa + flags < WORD
    ensures (pa + flags) % 0x1000 == flags && (pa + flags) % 4 == PTE_TABLE && LeafOk(pa + flags)
  {
    hide And, Or, Pow2;
    OrInPage(pa / 0x1000, 0, flags);
    OrZero(flags);
    Quotient(pa + flags, 0x1000, pa / 0x1000, flags);
    Quotient(pa + flags, 4, pa / 0x1000 * 0x400 + flags / 4, 3);
  }

  lemma LinkTree<T>(heap: nat, words: seq<nat>, use: seq<Use<T>>, f: nat, k: nat, g: nat)
    requires TreeOk(heap, words, use) && f < HEAP_PAGES && k < ENTRIES && g < HEAP_PAGES
    requires use[f].Table? && 1 <= use[f].level < 3 && use[g] == Other && ZeroPage(words, g)
    requires words[ENTRIES * f + k] == 0
    ensures TreeOk(heap, words[ENTRIES * f + k := FrameAddr(heap, g) + PTE_TABLE], use[g := ChildUse(use[f], f, k)])
  {
    HangOk(heap, words, words[ENTRIES * f + k := FrameAddr(heap, g) + PTE_TABLE], use, g, f, k);
  }

  lemma ChildCovers<T>(use: seq<Use<T>>, f: nat, g: nat, page: nat)
    requires page < IPA_PAGES && Covers(use, f, page) && use[f].level < 3 && g < |use|
    requires use[g] == ChildUse(use[f], f, IndexOf(page, use[f].level))
    ensures Covers(use, g, page)
  {
    PageOffset(page, use[f].level);
  }

  /** An entry masked with PAGE_MASK is the address of the table it points at. */
  lemma MaskPage(heap: nat, g: nat)
    requires HeapOk(heap) && g < HEAP_PAGES
    ensures And(FrameAddr(heap, g) + PTE_TABLE, PAGE_MASK) == FrameAddr(heap, g)
  {
    hide And;
    PageMask(FrameAddr(heap, g) + PTE_TABLE);
    Quotient(FrameAddr(heap, g) + PTE_TABLE, 0x1000, heap / 0x1000 + g, PTE_TABLE);
  }

  lemma IndexSame(ipa: nat, level: nat)
    requires 1 <= level <= 3
    ensures VaIndex(ipa, level) == IndexOf(PageOf(ipa), level)
  {
    hide And;
    var q := ipa / 0x1000;
    var size := Span(level);
    Quotient(ipa, LevelSize(level), q / size, q % size * 0x1000 + ipa % 0x1000);
    var f := IPA_PAGES / size;
    Quotient(q % IPA_PAGES, size, q % IPA_PAGES / size, q % IPA_PAGES % size);
    ModDiv(q, size, f);
  }

  /** (q mod size * f) / size and q / size agree modulo 512. */
  lemma ModDiv(q: nat, size: nat, f: nat)
    requires size > 0 && f % 512 == 0 && f > 0 && size * f == IPA_PAGES
    ensures q % IPA_PAGES / size % 512 == q / size % 512
  {
    var h, l := q / IPA_PAGES, q % IPA_PAGES;
    assert q == size * (f * h) + l by { assert size * (f * h) == (size * f) * h; }
    var a, b := l / size, l % size;
    assert q == size * (f * h + a) + b by { assert size * (f * h + a) == size * (f * h) + size * a; }
    Quotient(q, size, f * h + a, b);
    assert f * h == 512 * (f / 512 * h);
    Quotient(f * h + a, 512, f / 512 * h + a / 512, a % 512);
  }

  function TableEntry(addr: nat): (r: nat)
    requires addr % 0x1000 == 0 && addr < ADDR_LIMIT
    ensures r == addr + PTE_TABLE
  {
    Quotient(addr, 4, addr / 0x1000 * 0x400, 0);
    OrThree(addr);
    Or(addr, PTE_TABLE)
  }
}
