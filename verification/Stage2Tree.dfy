/**
 Stage-2 translation tables of the guests, inside the words of the kernel heap: three
 levels of 512 entries built from heap pages, walked from IPA bits 38:30, 29:21, 20:12.
 */
module Stage2Tree {
  import opened Bits
  import opened Descriptor
  import opened Wrappers

  const HEAP_PAGES: nat := 16384          // 64 MiB
  const ENTRIES: nat := 512
  const HEAP_WORDS: nat := HEAP_PAGES * ENTRIES
  const IPA_PAGES: nat := 0x800_0000      // 2^27 pages, IPA bits 38:12, as the software indexes its tables
  const S2_PAGES: nat := 0x100_0000       // 2^24 pages, IPA bits 35:12, as VTCR_EL2.T0SZ lets the hardware walk them
  const PAGE_MASK: nat := 0xffff_ffff_ffff_f000

  const PTE_TABLE: nat := 3
  const PTE_DRAM: nat := 0x7ff               // page, AF, inner shareable, read-write, write-back
  const PTE_DEVICE_NO_ACCESS: nat := 0x403   // page, AF, no access, device memory
  const PTE_DEVICE_ACCESS: nat := 0x4c3      // page, AF, read-write, device memory

  /** What a heap page is used for; T names the guest task a table belongs to. */
  datatype Use<T> = Free | Other | Table(task: T, level: nat, first: nat, parent: int)

  /** IPA pages behind one entry of a table of the level. */
  function Span(level: nat): (n: nat)
    requires level <= 3
    ensures n > 0
  {
    if level == 0 then IPA_PAGES else if level == 1 then 0x4_0000 else if level == 2 then 0x200 else 1
  }

  function IndexOf(page: nat, level: nat): nat
    requires 1 <= level <= 3
  {
    page / Span(level) % ENTRIES
  }

  function FrameOf(heap: nat, addr: nat): int { (addr - heap) / 0x1000 }

  /** The entry for an IPA page in the table at an address, if that is a heap page. */
  function Entry(heap: nat, addr: nat, page: nat, level: nat): Option<nat>
    requires 1 <= level <= 3
  {
    if addr < heap || FrameOf(heap, addr) >= HEAP_PAGES then None
    else Some(ENTRIES * FrameOf(heap, addr) + IndexOf(page, level))
  }

  /** The leaf descriptor that a walk from a table address reaches for an IPA page. */
  function WalkFrom(heap: nat, words: seq<nat>, addr: nat, level: nat, page: nat): (leaf: Option<nat>)
    requires 1 <= level <= 3
    ensures leaf.Some? ==> leaf.value % 4 == 3
    decreases 3 - level
  {
    match Entry(heap, addr, page, level)
    case None => None
    case Some(slot) =>
      if slot >= |words| || words[slot] % 4 != 3 then None
      else if level == 3 then Some(words[slot])
      else WalkFrom(heap, words, words[slot] / 0x1000 * 0x1000, level + 1, page)
  }

  /** What the tables of a task hold for an IPA page; page_table 0 means no table yet. */
  function TreeWalk(heap: nat, words: seq<nat>, root: nat, page: nat): (leaf: Option<nat>)
    ensures leaf.Some? ==> leaf.value % 4 == 3
  {
    if root == 0 then None else WalkFrom(heap, words, root, 1, page)
  }

  /**
   The stage-2 walk of the hardware. An IPA outside its input size is a translation fault of
   level 0, whatever the tables hold.
   */
  function HardwareWalk(heap: nat, words: seq<nat>, root: nat, page: nat): (leaf: Option<nat>)
    ensures leaf.Some? ==> leaf.value % 4 == 3
  {
    if page >= S2_PAGES then None else TreeWalk(heap, words, root, page)
  }

  /**
   A level-3 descriptor as the hardware reads it: a page (bits 1:0), its memory attributes
   (5:2), access permission (7:6), access flag (10) and frame (47:12).
   */
  ghost predicate IsPage(d: nat, frame: nat, memAttr: nat, s2ap: nat) {
    && d % 4 == 3 && d / 4 % 0x10 == memAttr && d / 0x40 % 4 == s2ap && d / 0x400 % 2 == 1
    && d % 0x1_0000_0000_0000 / 0x1000 == frame
  }

  /** What the code writes as leaves, as the hardware reads them. */
  lemma LeafReads(pa: nat, flags: nat)
    requires pa % 0x1000 == 0 && pa < ADDR_LIMIT
    ensures flags == PTE_DRAM ==> IsPage(pa + flags, pa / 0x1000, 15, 3) && (pa + flags) / 0x100 % 4 == 3
    ensures flags == PTE_DEVICE_NO_ACCESS ==> IsPage(pa + flags, pa / 0x1000, 0, 0)
    ensures flags == PTE_DEVICE_ACCESS ==> IsPage(pa + flags, pa / 0x1000, 0, 3)
  {
    if flags < 0x1000 {
      var d := pa + flags;
      DescParts(d, 0, pa / 0x1000, flags);
      LowField(d, 4, 0x10, 0x40);
      LowField(d, 0x40, 4, 0x10);
      LowField(d, 0x100, 4, 4);
      LowField(d, 0x400, 2, 2);
    }
  }

  /** Of the leaves the code writes, those of guest DRAM are the read-write write-back pages. */
  lemma DramReads(d: nat)
    requires LeafOk(d)
    ensures d / 4 % 0x10 == 15 && d / 0x40 % 4 == 3 <==> d % 0x1000 == PTE_DRAM
  {
    LowField(d, 4, 0x10, 0x40);
    LowField(d, 0x40, 4, 0x10);
  }

  ghost function FrameAddr(heap: nat, f: nat): nat { heap + 0x1000 * f }

  ghost predicate LeafOk(d: nat) {
    d == 0 || d % 0x1000 == PTE_DRAM || d % 0x1000 == PTE_DEVICE_NO_ACCESS || d % 0x1000 == PTE_DEVICE_ACCESS
  }

  ghost predicate HeapOk(heap: nat) { 0 < heap && heap % 0x1000 == 0 && heap + 0x1000 * HEAP_PAGES <= ADDR_LIMIT }

  /** Entry k of table f points at its own child table, or is a leaf, or is empty. */
  ghost predicate EntryOk<T>(heap: nat, words: seq<nat>, use: seq<Use<T>>, f: nat, k: nat)
    requires |words| == HEAP_WORDS && |use| == HEAP_PAGES && f < HEAP_PAGES && k < ENTRIES
    requires use[f].Table? && 1 <= use[f].level <= 3
  {
    var d := words[ENTRIES * f + k];
    if use[f].level == 3 then LeafOk(d) && d < WORD
    else d != 0 ==> exists g :: 0 <= g < HEAP_PAGES && d == FrameAddr(heap, g) + PTE_TABLE
                                && use[g] == ChildUse(use[f], f, k)
  }

  ghost function ChildUse<T>(u: Use<T>, f: nat, k: nat): Use<T>
    requires u.Table? && u.level <= 3
  {
    Table(u.task, u.level + 1, u.first + k * Span(u.level), ENTRIES * f + k)
  }

  /** A table below level 1 hangs from the entry recorded for it. */
  ghost predicate HangsFrom<T>(heap: nat, words: seq<nat>, use: seq<Use<T>>, f: nat)
    requires |words| == HEAP_WORDS && |use| == HEAP_PAGES && f < HEAP_PAGES && use[f].Table?
  {
    var s := use[f].parent;
    && 0 <= s < HEAP_WORDS && words[s] == FrameAddr(heap, f) + PTE_TABLE
    && use[s / ENTRIES].Table? && use[s / ENTRIES].level < 3
    && use[f] == ChildUse(use[s / ENTRIES], s / ENTRIES, s % ENTRIES)
  }

  ghost predicate TableOk<T>(heap: nat, words: seq<nat>, use: seq<Use<T>>, f: nat)
    requires |words| == HEAP_WORDS && |use| == HEAP_PAGES && f < HEAP_PAGES && use[f].Table?
  {
    var u := use[f];
    && 1 <= u.level <= 3
    && u.first % Span(u.level - 1) == 0
    && (u.level == 1 ==> u.first == 0)
    && (u.level > 1 ==> HangsFrom(heap, words, use, f))
    && forall k :: 0 <= k < ENTRIES ==> EntryOk(heap, words, use, f, k)
  }

  ghost predicate TreeOk<T>(heap: nat, words: seq<nat>, use: seq<Use<T>>) {
    && HeapOk(heap) && |words| == HEAP_WORDS && |use| == HEAP_PAGES
    && forall f :: 0 <= f < HEAP_PAGES && use[f].Table? ==> TableOk(heap, words, use, f)
  }

  /** Table f is the one the walk of page visits at its level. */
  ghost predicate Covers<T>(use: seq<Use<T>>, f: nat, page: nat) {
    && f < |use| && use[f].Table? && 1 <= use[f].level <= 3
    && use[f].first == page - page % Span(use[f].level - 1)
  }

  lemma EntryAt<T>(heap: nat, words: seq<nat>, use: seq<Use<T>>, f: nat, page: nat)
    requires TreeOk(heap, words, use) && f < HEAP_PAGES && use[f].Table? && 1 <= use[f].level <= 3
    ensures Entry(heap, FrameAddr(heap, f), page, use[f].level) == Some(ENTRIES * f + IndexOf(page, use[f].level))
    ensures IndexOf(page, use[f].level) < ENTRIES && (ENTRIES * f + IndexOf(page, use[f].level)) / ENTRIES == f
    ensures EntryOk(heap, words, use, f, IndexOf(page, use[f].level))
  {
    assert TableOk(heap, words, use, f);
  }

  lemma TableAddress(heap: nat, g: nat)
    requires HeapOk(heap) && g < HEAP_PAGES
    ensures var d := FrameAddr(heap, g) + PTE_TABLE;
            d % 4 == PTE_TABLE && d / 0x1000 * 0x1000 == FrameAddr(heap, g) && 0 < d < WORD
  {
    Quotient(FrameAddr(heap, g) + PTE_TABLE, 0x1000, heap / 0x1000 + g, 3);
    Quotient(FrameAddr(heap, g) + PTE_TABLE, 4, (heap / 0x1000 + g) * 0x400, 3);
  }

  /** A non-empty entry above level 3 leads to the child table for the same page. */
  lemma Step<T>(heap: nat, words: seq<nat>, use: seq<Use<T>>, f: nat, page: nat) returns (g: nat)
    requires TreeOk(heap, words, use) && page < IPA_PAGES && Covers(use, f, page) && use[f].level < 3
    requires words[ENTRIES * f + IndexOf(page, use[f].level)] != 0
    ensures var k := IndexOf(page, use[f].level);
            && g < HEAP_PAGES && words[ENTRIES * f + k] == FrameAddr(heap, g) + PTE_TABLE
            && use[g] == ChildUse(use[f], f, k) && Covers(use, g, page)
  {
    var level := use[f].level;
    var k := IndexOf(page, level);
    EntryAt(heap, words, use, f, page);
    g :| && 0 <= g < HEAP_PAGES && words[ENTRIES * f + k] == FrameAddr(heap, g) + PTE_TABLE
         && use[g] == ChildUse(use[f], f, k);
    PageOffset(page, level);
  }

  lemma PageOffset(page: nat, level: nat)
    requires 1 <= level <= 3 && page < IPA_PAGES
    ensures page % Span(level - 1) == IndexOf(page, level) * Span(level) + page % Span(level)
  {
    var q, r := page / Span(level), page % Span(level);
    if level == 1 {
      Quotient(page, IPA_PAGES, 0, page);
    } else if level == 2 {
      Quotient(page, 0x4_0000, q / 512, q % 512 * 0x200 + r);
    } else {
      Quotient(page, 0x200, q / 512, q % 512);
    }
  }

  /** Entry `slot` belongs to `task` and stands for `page` at `level`. */
  ghost predicate SlotFor<T>(use: seq<Use<T>>, slot: nat, task: T, level: nat, page: nat)
    requires 1 <= level <= 3
  {
    var f := slot / ENTRIES;
    && f < |use| && Covers(use, f, page) && use[f].task == task && use[f].level == level
    && slot == ENTRIES * f + IndexOf(page, level)
  }

  /** Words agree on every table in use, except perhaps at one entry. */
  ghost predicate SameTables<T>(words: seq<nat>, words': seq<nat>, use: seq<Use<T>>, slot: int) {
    && |words| == |words'| == HEAP_WORDS && |use| == HEAP_PAGES
    && forall s :: 0 <= s < HEAP_WORDS && use[s / ENTRIES].Table? && s != slot ==> words'[s] == words[s]
  }

  /** A walk of the page at address FrameAddr(heap, f) follows that page's entry. */
  lemma WalkAt(heap: nat, words: seq<nat>, f: nat, level: nat, page: nat)
    requires |words| == HEAP_WORDS && f < HEAP_PAGES && 1 <= level <= 3
    ensures ENTRIES * f + IndexOf(page, level) < HEAP_WORDS
    ensures WalkFrom(heap, words, FrameAddr(heap, f), level, page)
         == From(heap, words, words[ENTRIES * f + IndexOf(page, level)], level, page)
  {
    assert Entry(heap, FrameAddr(heap, f), page, level) == Some(ENTRIES * f + IndexOf(page, level));
  }

  /** A walk of table f follows its entry s for the page, in the changed words too. */
  lemma WalkStep<T>(heap: nat, words: seq<nat>, words': seq<nat>, use: seq<Use<T>>, slot: int, f: nat, page: nat)
    returns (s: nat)
    requires TreeOk(heap, words, use) && page < IPA_PAGES && Covers(use, f, page)
    requires SameTables(words, words', use, slot)
    ensures f < HEAP_PAGES == |use| && s == ENTRIES * f + IndexOf(page, use[f].level)
    ensures s < |words| == |words'| == HEAP_WORDS
    ensures 1 <= use[f].level <= 3 && (s != slot ==> words'[s] == words[s])
    ensures WalkFrom(heap, words, FrameAddr(heap, f), use[f].level, page)
         == From(heap, words, words[s], use[f].level, page)
    ensures WalkFrom(heap, words', FrameAddr(heap, f), use[f].level, page)
         == From(heap, words', words'[s], use[f].level, page)
  {
    s := ENTRIES * f + IndexOf(page, use[f].level);
    EntryAt(heap, words, use, f, page);
  }

  /** How a walk goes on at an entry of the level that holds d. */
  ghost function From(heap: nat, words: seq<nat>, d: nat, level: nat, page: nat): Option<nat>
    requires 1 <= level <= 3
  {
    if d % 4 != PTE_TABLE then None else if level == 3 then Some(d)
    else WalkFrom(heap, words, d / 0x1000 * 0x1000, level + 1, page)
  }

  /** A walk that does not go through the changed entry is unchanged. */
  lemma {:induction false} WalkElsewhere<T>(heap: nat, words: seq<nat>, words': seq<nat>, use: seq<Use<T>>,
                                            slot: int, f: nat, page: nat)
    requires TreeOk(heap, words, use) && SameTables(words, words', use, slot)
    requires page < IPA_PAGES && Covers(use, f, page)
    requires forall level :: use[f].level <= level <= 3 && slot >= 0 ==> !SlotFor(use, slot, use[f].task, level, page)
    ensures WalkFrom(heap, words', FrameAddr(heap, f), use[f].level, page)
         == WalkFrom(heap, words, FrameAddr(heap, f), use[f].level, page)
    decreases 3 - use[f].level
  {
    hide TreeOk, EntryOk, TableOk, Span, IndexOf, Entry, FrameAddr, FrameOf, WalkFrom, SameTables;
    var level := use[f].level;
    var s := WalkStep(heap, words, words', use, slot, f, page);
    assert s != slot by {
      SlotHere(use, s, f, page);
      assert slot >= 0 ==> !SlotFor(use, slot, use[f].task, level, page);
    }
    hide SlotFor;
    if level < 3 && words[s] != 0 {
      var g := Step(heap, words, use, f, page);
      TableAt(heap, words, use, g);
      WalkElsewhere(heap, words, words', use, slot, g, page);
    }
  }

  lemma SlotHere<T>(use: seq<Use<T>>, s: nat, f: nat, page: nat)
    requires Covers(use, f, page) && s == ENTRIES * f + IndexOf(page, use[f].level)
    ensures s / ENTRIES == f && SlotFor(use, s, use[f].task, use[f].level, page)
  {
  }

  lemma TableAt<T>(heap: nat, words: seq<nat>, use: seq<Use<T>>, g: nat)
    requires TreeOk(heap, words, use) && g < HEAP_PAGES
    ensures var d := FrameAddr(heap, g) + PTE_TABLE;
            d % 4 == PTE_TABLE && d / 0x1000 * 0x1000 == FrameAddr(heap, g) && 0 < d < WORD
  {
    TableAddress(heap, g);
  }

  ghost predicate ZeroPage(words: seq<nat>, g: nat)
    requires |words| == HEAP_WORDS && g < HEAP_PAGES
  {
    forall s :: ENTRIES * g <= s < ENTRIES * g + ENTRIES ==> words[s] == 0
  }

  // The changes the code makes to the heap, and what they keep.

  /** A table stays well formed when its entries, or all but one, are untouched. */
  lemma TableKept<T>(heap: nat, words: seq<nat>, words': seq<nat>, use: seq<Use<T>>, use': seq<Use<T>>,
                     g: nat, slot: int, f: nat)
    requires TreeOk(heap, words, use) && SameTables(words, words', use, slot)
    requires g < HEAP_PAGES && |use'| == HEAP_PAGES && forall h :: 0 <= h < HEAP_PAGES && h != g ==> use'[h] == use[h]
    requires g < HEAP_PAGES && !use[g].Table? && f < HEAP_PAGES && f != g && use[f].Table?
    requires slot >= 0 ==> slot < HEAP_WORDS && words[slot] == 0
    ensures use[f].level > 1 ==> HangsFrom(heap, words', use', f)
    ensures forall k :: 0 <= k < ENTRIES && (f != slot / ENTRIES || k != slot % ENTRIES) ==>
              EntryOk(heap, words', use', f, k)
    ensures 1 <= use[f].level <= 3 && use[f].first % Span(use[f].level - 1) == 0
    ensures use[f].level == 1 ==> use[f].first == 0
  {
    hide EntryOk;
    assert TableOk(heap, words, use, f);
    forall k | 0 <= k < ENTRIES && (f != slot / ENTRIES || k != slot % ENTRIES)
      ensures EntryOk(heap, words', use', f, k)
    {
      EntryKept(heap, words, words', use, use', g, slot, f, k);
    }
  }

  lemma EntryKept<T>(heap: nat, words: seq<nat>, words': seq<nat>, use: seq<Use<T>>, use': seq<Use<T>>,
                     g: nat, slot: int, f: nat, k: nat)
    requires TreeOk(heap, words, use) && SameTables(words, words', use, slot)
    requires g < HEAP_PAGES && |use'| == HEAP_PAGES && forall h :: 0 <= h < HEAP_PAGES && h != g ==> use'[h] == use[h]
    requires !use[g].Table? && f < HEAP_PAGES && f != g && use[f].Table? && k < ENTRIES
    requires f != slot / ENTRIES || k != slot % ENTRIES
    ensures 1 <= use[f].level <= 3 && EntryOk(heap, words', use', f, k)
  {
    assert TableOk(heap, words, use, f);
    assert EntryOk(heap, words, use, f, k);
    var s := ENTRIES * f + k;
    assert s / ENTRIES == f && s % ENTRIES == k;
    var d := words[s];
    assert words'[s] == d;
    if use[f].level < 3 && d != 0 {
      var c :| 0 <= c < HEAP_PAGES && d == FrameAddr(heap, c) + PTE_TABLE && use[c] == ChildUse(use[f], f, k);
      assert use'[c] == use[c];
    }
  }

  /** A page outside the tables becomes a root table, or is put to some other use. */
  lemma AllocOk<T>(heap: nat, words: seq<nat>, words': seq<nat>, use: seq<Use<T>>, g: nat, u: Use<T>)
    requires TreeOk(heap, words, use) && g < HEAP_PAGES && !use[g].Table?
    requires SameTables(words, words', use, -1) && (u.Table? ==> ZeroPage(words', g))
    requires !u.Table? || (u.level == 1 && u.first == 0)
    ensures TreeOk(heap, words', use[g := u])
  {
    var use' := use[g := u];
    forall f | 0 <= f < HEAP_PAGES && use'[f].Table? ensures TableOk(heap, words', use', f) {
      if f != g {
        TableKept(heap, words, words', use, use', g, -1, f);
      } else {
        forall k | 0 <= k < ENTRIES ensures EntryOk(heap, words', use', f, k) {
        }
      }
    }
  }

  /** Hanging a zeroed page under an empty entry of table f. */
  lemma HangOk<T>(heap: nat, words: seq<nat>, words': seq<nat>, use: seq<Use<T>>, g: nat, f: nat, k: nat)
    requires TreeOk(heap, words, use) && g < HEAP_PAGES && !use[g].Table?
    requires f < HEAP_PAGES && use[f].Table? && 1 <= use[f].level < 3 && k < ENTRIES
    requires SameTables(words, words', use, ENTRIES * f + k) && ZeroPage(words', g)
    requires words[ENTRIES * f + k] == 0 && words'[ENTRIES * f + k] == FrameAddr(heap, g) + PTE_TABLE
    ensures TreeOk(heap, words', use[g := ChildUse(use[f], f, k)])
  {
    hide Span;
    var use' := use[g := ChildUse(use[f], f, k)];
    var slot := ENTRIES * f + k;
    assert slot / ENTRIES == f && slot % ENTRIES == k;
    HangNew(heap, words, words', use, g, f, k);
    forall t | 0 <= t < HEAP_PAGES && use'[t].Table? ensures TableOk(heap, words', use', t) {
      if t != g {
        TableKept(heap, words, words', use, use', g, slot, t);
      }
    }
  }

  /** The new table itself, and the entry that leads to it. */
  lemma HangNew<T>(heap: nat, words: seq<nat>, words': seq<nat>, use: seq<Use<T>>, g: nat, f: nat, k: nat)
    requires TreeOk(heap, words, use) && g < HEAP_PAGES && !use[g].Table?
    requires f < HEAP_PAGES && use[f].Table? && 1 <= use[f].level < 3 && k < ENTRIES
    requires |words'| == HEAP_WORDS && ZeroPage(words', g)
    requires words'[ENTRIES * f + k] == FrameAddr(heap, g) + PTE_TABLE
    ensures TableOk(heap, words', use[g := ChildUse(use[f], f, k)], g)
    ensures EntryOk(heap, words', use[g := ChildUse(use[f], f, k)], f, k)
  {
    var use' := use[g := ChildUse(use[f], f, k)];
    assert (ENTRIES * f + k) / ENTRIES == f && (ENTRIES * f + k) % ENTRIES == k;
    assert TableOk(heap, words, use, f);
    FirstAligned(use[f].first, k, use[f].level);
    hide Span;
    assert HangsFrom(heap, words', use', g);
    forall j | 0 <= j < ENTRIES ensures EntryOk(heap, words', use', g, j) {
    }
  }

  lemma FirstAligned(first: nat, k: nat, level: nat)
    requires 1 <= level <= 2 && first % Span(level - 1) == 0
    ensures (first + k * Span(level)) % Span(level) == 0
  {
    if level == 1 {
      Quotient(first + k * 0x4_0000, 0x4_0000, first / IPA_PAGES * 512 + k, 0);
    } else {
      Quotient(first + k * 0x200, 0x200, first / 0x4_0000 * 512 + k, 0);
    }
  }

  /** Writing a leaf into a level-3 table. */
  lemma LeafOkay<T>(heap: nat, words: seq<nat>, use: seq<Use<T>>, f: nat, k: nat, d: nat)
    requires TreeOk(heap, words, use) && f < HEAP_PAGES && k < ENTRIES
    requires use[f].Table? && use[f].level == 3 && LeafOk(d) && d < WORD
    ensures TreeOk(heap, words[ENTRIES * f + k := d], use)
  {
    var words' := words[ENTRIES * f + k := d];
    forall t | 0 <= t < HEAP_PAGES && use[t].Table? ensures TableOk(heap, words', use, t) {
      assert TableOk(heap, words, use, t);
      forall j | 0 <= j < ENTRIES ensures EntryOk(heap, words', use, t, j) {
        assert EntryOk(heap, words, use, t, j);
        assert (ENTRIES * f + k) / ENTRIES == f && (ENTRIES * t + j) / ENTRIES == t;
      }
    }
  }

  /** A zeroed table translates nothing. */
  lemma EmptyTable(heap: nat, words: seq<nat>, g: nat, level: nat, page: nat)
    requires HeapOk(heap) && |words| == HEAP_WORDS && g < HEAP_PAGES && ZeroPage(words, g) && 1 <= level <= 3
    ensures WalkFrom(heap, words, FrameAddr(heap, g), level, page) == None
  {
    assert Entry(heap, FrameAddr(heap, g), page, level) == Some(ENTRIES * g + IndexOf(page, level));
  }

  lemma EmptyBelow<T>(heap: nat, words: seq<nat>, words': seq<nat>, use: seq<Use<T>>, g: nat, level: nat, page: nat)
    requires TreeOk(heap, words, use) && |words'| == HEAP_WORDS
    requires g < HEAP_PAGES && ZeroPage(words', g) && 1 <= level <= 3
    ensures WalkFrom(heap, words', FrameAddr(heap, g), level, page) == None
  {
    EmptyTable(heap, words', g, level, page);
  }

  /** Hanging an empty table changes no walk: what went through the entry still finds nothing. */
  lemma {:induction false} HangWalk<T>(heap: nat, words: seq<nat>, words': seq<nat>, use: seq<Use<T>>,
                                       g: nat, slot: nat, f: nat, page: nat)
    requires TreeOk(heap, words, use) && SameTables(words, words', use, slot)
    requires g < HEAP_PAGES && ZeroPage(words', g)
    requires slot < HEAP_WORDS && words[slot] == 0 && words'[slot] == FrameAddr(heap, g) + PTE_TABLE
    requires use[slot / ENTRIES].Table? && use[slot / ENTRIES].level < 3
    requires page < IPA_PAGES && Covers(use, f, page)
    ensures WalkFrom(heap, words', FrameAddr(heap, f), use[f].level, page)
         == WalkFrom(heap, words, FrameAddr(heap, f), use[f].level, page)
    decreases 3 - use[f].level
  {
    hide TreeOk, EntryOk, TableOk, Span, IndexOf, Entry, FrameAddr, FrameOf, WalkFrom, ZeroPage, SameTables;
    var level := use[f].level;
    var s := WalkStep(heap, words, words', use, slot, f, page);
    if s == slot {
      SlotHere(use, s, f, page);
      TableAt(heap, words, use, g);
      EmptyBelow(heap, words, words', use, g, level + 1, page);
    } else if level < 3 && words[s] != 0 {
      var c := Step(heap, words, use, f, page);
      TableAt(heap, words, use, c);
      HangWalk(heap, words, words', use, g, slot, c, page);
    }
  }

  /** Each table hangs from one entry only, and that entry belongs to its own task. */
  lemma OneParent<T>(heap: nat, words: seq<nat>, use: seq<Use<T>>, f1: nat, k1: nat, f2: nat, k2: nat)
    requires TreeOk(heap, words, use)
    requires f1 < HEAP_PAGES && f2 < HEAP_PAGES && k1 < ENTRIES && k2 < ENTRIES
    requires use[f1].Table? && use[f2].Table? && use[f1].level < 3 && use[f2].level < 3
    requires words[ENTRIES * f1 + k1] == words[ENTRIES * f2 + k2] != 0
    ensures f1 == f2 && k1 == k2
  {
    hide Span, HangsFrom, LeafOk, HeapOk;
    assert TableOk(heap, words, use, f1) && TableOk(heap, words, use, f2);
    assert EntryOk(heap, words, use, f1, k1) && EntryOk(heap, words, use, f2, k2);
    assert (ENTRIES * f1 + k1) / ENTRIES == f1 && (ENTRIES * f2 + k2) / ENTRIES == f2;
  }

  // Which tables a task has.

  /** The task has a table of the level on the way to the page. */
  ghost predicate Has<T>(use: seq<Use<T>>, t: T, level: nat, page: nat) {
    exists f :: 0 <= f < |use| && Covers(use, f, page) && use[f].task == t && use[f].level == level
  }

  ghost function Lacks<T>(use: seq<Use<T>>, t: T, level: nat, page: nat): nat {
    if Has(use, t, level, page) then 0 else 1
  }

  /** How many of the three tables on the way to a page a task lacks. */
  ghost function Missing<T>(use: seq<Use<T>>, t: T, page: nat): nat {
    Lacks(use, t, 1, page) + Lacks(use, t, 2, page) + Lacks(use, t, 3, page)
  }

  /** The first page behind the table of the level on the way to a page. */
  ghost function BlockOf(level: nat, page: nat): nat
    requires 1 <= level <= 3
  {
    page - page % Span(level - 1)
  }

  /** Two pages are served by one table of the level. */
  ghost predicate SameBlock(level: nat, p: nat, q: nat)
    requires 1 <= level <= 3
  {
    BlockOf(level, p) == BlockOf(level, q)
  }

  /** Two pages are served by the same three tables. */
  ghost predicate SameBlocks(p: nat, q: nat) {
    SameBlock(1, p, q) && SameBlock(2, p, q) && SameBlock(3, p, q)
  }

  /** Taking a page for a table adds that table and no other. */
  lemma HasAdds<T>(use: seq<Use<T>>, g: nat, u: Use<T>, t: T, level: nat, page: nat)
    requires g < |use| && !use[g].Table? && (u.Table? ==> 1 <= u.level <= 3)
    ensures Has(use[g := u], t, level, page) <==>
            Has(use, t, level, page)
            || (u.Table? && u.task == t && u.level == level && u.first == page - page % Span(level - 1))
  {
    hide Span;
    var use' := use[g := u];
    if Has(use, t, level, page) {
      var f :| 0 <= f < |use| && Covers(use, f, page) && use[f].task == t && use[f].level == level;
      assert Covers(use', f, page);
    }
    if Has(use', t, level, page) {
      var f :| 0 <= f < |use'| && Covers(use', f, page) && use'[f].task == t && use'[f].level == level;
      assert f != g ==> Covers(use, f, page);
    }
    if u.Table? && u.task == t && u.level == level && u.first == page - page % Span(level - 1) {
      assert Covers(use', g, page);
    }
  }

  /** The task's tables are those of use0 and the one of a level on the way to a page. */
  ghost predicate Added<T>(use0: seq<Use<T>>, use: seq<Use<T>>, t: T, level: nat, page: nat) {
    forall l, p :: 1 <= l <= 3 && 0 <= p < IPA_PAGES ==>
      (Has(use, t, l, p) <==> Has(use0, t, l, p) || (l == level && SameBlock(l, p, page)))
  }

  /** The task's tables are those of use0 and the three on the way to a page. */
  ghost predicate AddedAll<T>(use0: seq<Use<T>>, use: seq<Use<T>>, t: T, page: nat) {
    forall l, p :: 1 <= l <= 3 && 0 <= p < IPA_PAGES ==>
      (Has(use, t, l, p) <==> Has(use0, t, l, p) || SameBlock(l, p, page))
  }

  lemma AddsOne<T>(use: seq<Use<T>>, g: nat, u: Use<T>, page: nat)
    requires g < |use| && !use[g].Table? && u.Table? && 1 <= u.level <= 3
    requires u.first == page - page % Span(u.level - 1)
    ensures Added(use, use[g := u], u.task, u.level, page)
  {
    hide Has, Span;
    forall l, p | 1 <= l <= 3 && 0 <= p < IPA_PAGES
      ensures Has(use[g := u], u.task, l, p) <==> Has(use, u.task, l, p) || (l == u.level && SameBlock(l, p, page))
    {
      HasAdds(use, g, u, u.task, l, p);
    }
  }

  /** A table that is there already adds nothing. */
  lemma AddsNone<T>(use: seq<Use<T>>, t: T, level: nat, page: nat)
    requires 1 <= level <= 3 && Has(use, t, level, page)
    ensures Added(use, use, t, level, page)
  {
    hide Span;
    var f :| 0 <= f < |use| && Covers(use, f, page) && use[f].task == t && use[f].level == level;
    forall p | 0 <= p < IPA_PAGES && SameBlock(level, p, page) ensures Has(use, t, level, p) {
      assert Covers(use, f, p);
    }
  }

  lemma AddsThree<T>(use0: seq<Use<T>>, use1: seq<Use<T>>, use2: seq<Use<T>>, use3: seq<Use<T>>, t: T, page: nat)
    requires Added(use0, use1, t, 1, page) && Added(use1, use2, t, 2, page) && Added(use2, use3, t, 3, page)
    requires page < IPA_PAGES
    ensures AddedAll(use0, use3, t, page)
    ensures Lacks(use1, t, 2, page) == Lacks(use0, t, 2, page) && Lacks(use2, t, 3, page) == Lacks(use0, t, 3, page)
  {
    hide Has, SameBlock;
  }

  /** A page served by tables that are there already adds nothing to them. */
  lemma AddsSame<T>(use0: seq<Use<T>>, use1: seq<Use<T>>, use2: seq<Use<T>>, t: T, page: nat, other: nat)
    requires AddedAll(use0, use1, t, page) && AddedAll(use1, use2, t, other) && SameBlocks(other, page)
    ensures AddedAll(use0, use2, t, page)
  {
    hide Has, BlockOf;
    forall l, p | 1 <= l <= 3 && 0 <= p < IPA_PAGES
      ensures Has(use2, t, l, p) <==> Has(use0, t, l, p) || SameBlock(l, p, page)
    {
      assert Has(use2, t, l, p) <==> Has(use1, t, l, p) || SameBlock(l, p, other);
      assert SameBlock(l, other, page);
    }
  }

  /** Pages of one 2 MiB block are served by the same tables. */
  lemma BlocksBySize(p: nat, q: nat)
    requires p / 0x200 == q / 0x200 && p < IPA_PAGES && q < IPA_PAGES
    ensures SameBlocks(p, q)
  {
    var b := p / 0x200;
    Quotient(p, 0x4_0000, b / 0x200, b % 0x200 * 0x200 + p % 0x200);
    Quotient(q, 0x4_0000, b / 0x200, b % 0x200 * 0x200 + q % 0x200);
    Quotient(p, IPA_PAGES, 0, p);
    Quotient(q, IPA_PAGES, 0, q);
  }

  lemma NoneMissing<T>(use0: seq<Use<T>>, use1: seq<Use<T>>, t: T, page: nat, other: nat)
    requires AddedAll(use0, use1, t, page) && SameBlocks(other, page) && other < IPA_PAGES
    ensures Missing(use1, t, other) == 0
  {
    hide Has, BlockOf;
  }

  ghost predicate IsRoot<T>(u: Use<T>) { u.Table? && u.level == 1 }

  ghost predicate OneRoot<T>(use: seq<Use<T>>) {
    forall f1, f2 :: 0 <= f1 < |use| && 0 <= f2 < |use| && IsRoot(use[f1]) && IsRoot(use[f2]) && f1 != f2 ==>
      use[f1].task != use[f2].task
  }

  /** The table that a table on the way to a page hangs from is on the way to the page too. */
  lemma ParentCovers<T>(heap: nat, words: seq<nat>, use: seq<Use<T>>, f: nat, page: nat)
    requires TreeOk(heap, words, use) && f < HEAP_PAGES && page < IPA_PAGES && Covers(use, f, page) && use[f].level > 1
    ensures HangsFrom(heap, words, use, f)
    ensures var p, k := use[f].parent / ENTRIES, use[f].parent % ENTRIES;
            && Covers(use, p, page) && use[p].level + 1 == use[f].level && use[p].task == use[f].task
            && k == IndexOf(page, use[p].level)
  {
    assert TableOk(heap, words, use, f);
    var p, k := use[f].parent / ENTRIES, use[f].parent % ENTRIES;
    assert TableOk(heap, words, use, p);
    StartOf(page, use[p].level, use[p].first, k);
  }

  /** Entry k of a table that starts at an aligned page starts where the page's own block does. */
  lemma StartOf(page: nat, level: nat, first: nat, k: nat)
    requires 1 <= level <= 2 && page < IPA_PAGES && k < ENTRIES && first % Span(level - 1) == 0
    requires first + k * Span(level) == page - page % Span(level)
    ensures first == page - page % Span(level - 1) && k == IndexOf(page, level)
  {
    if level == 1 {
      Quotient(page, 0x4_0000, first / IPA_PAGES * 512 + k, page % 0x4_0000);
      Quotient(first / IPA_PAGES * 512 + k, 512, first / IPA_PAGES, k);
      Quotient(page, IPA_PAGES, first / IPA_PAGES, k * 0x4_0000 + page % 0x4_0000);
    } else {
      Quotient(page, 0x200, first / 0x4_0000 * 512 + k, page % 0x200);
      Quotient(first / 0x4_0000 * 512 + k, 512, first / 0x4_0000, k);
      Quotient(page, 0x4_0000, first / 0x4_0000, k * 0x200 + page % 0x200);
    }
  }

  /** A task has at most one table of a level on the way to a page. */
  lemma {:induction false} TableUnique<T>(heap: nat, words: seq<nat>, use: seq<Use<T>>, f1: nat, f2: nat, page: nat)
    requires TreeOk(heap, words, use) && OneRoot(use) && page < IPA_PAGES && f1 < HEAP_PAGES && f2 < HEAP_PAGES
    requires Covers(use, f1, page) && Covers(use, f2, page)
    requires use[f1].task == use[f2].task && use[f1].level == use[f2].level
    ensures f1 == f2
    decreases use[f1].level
  {
    hide TreeOk, TableOk, IndexOf;
    if use[f1].level > 1 {
      ParentCovers(heap, words, use, f1, page);
      ParentCovers(heap, words, use, f2, page);
      TableUnique(heap, words, use, use[f1].parent / ENTRIES, use[f2].parent / ENTRIES, page);
      assert use[f1].parent == use[f2].parent;
    }
  }

  /** An entry above level 3 is empty exactly when the task lacks the table it leads to. */
  lemma EntryIsTable<T>(heap: nat, words: seq<nat>, use: seq<Use<T>>, f: nat, page: nat)
    requires TreeOk(heap, words, use) && OneRoot(use) && page < IPA_PAGES && f < HEAP_PAGES
    requires Covers(use, f, page) && use[f].level < 3
    ensures words[ENTRIES * f + IndexOf(page, use[f].level)] != 0 <==> Has(use, use[f].task, use[f].level + 1, page)
  {
    assert |words| == HEAP_WORDS && |use| == HEAP_PAGES;
    hide TreeOk, TableOk, IndexOf, EntryOk;
    var level := use[f].level;
    EntryAt(heap, words, use, f, page);
    if words[ENTRIES * f + IndexOf(page, level)] != 0 {
      var g := Step(heap, words, use, f, page);
    }
    if Has(use, use[f].task, level + 1, page) {
      var c :| 0 <= c < |use| && Covers(use, c, page) && use[c].task == use[f].task && use[c].level == level + 1;
      ParentCovers(heap, words, use, c, page);
      TableUnique(heap, words, use, f, use[c].parent / ENTRIES, page);
    }
  }

  /** A task without a root has no tables. */
  lemma {:induction false} NoRoot<T>(heap: nat, words: seq<nat>, use: seq<Use<T>>, t: T, level: nat, page: nat)
    requires TreeOk(heap, words, use) && page < IPA_PAGES && 1 <= level <= 3 && !Has(use, t, 1, page)
    ensures !Has(use, t, level, page)
    decreases level
  {
    if Has(use, t, level, page) {
      hide TreeOk, TableOk, IndexOf;
      var f :| 0 <= f < |use| && Covers(use, f, page) && use[f].task == t && use[f].level == level;
      assert level > 1;
      NoRoot(heap, words, use, t, level - 1, page);
      ParentCovers(heap, words, use, f, page);
    }
  }

  /** A level-3 entry stands for one page of one task only. */
  lemma LeafSlotDetermines<T>(use: seq<Use<T>>, slot: nat, t1: T, p1: nat, t2: T, l2: nat, p2: nat)
    requires 1 <= l2 <= 3 && SlotFor(use, slot, t1, 3, p1) && SlotFor(use, slot, t2, l2, p2)
    ensures t1 == t2 && l2 == 3 && p1 == p2
  {
    assert IndexOf(p1, 3) == p1 % 512 && IndexOf(p2, 3) == p2 % 512;
  }
}
