/**
 The EL2 translation-table builder (src/arch/arm64/mmu.cc). The two static table arrays
 are one array of words, written in place through word indices where the source uses
 pointers.
 */
module Mmu {
  import opened Bits
  import opened Descriptor
  import opened XlatTree
  import opened Wrappers

  datatype Region = Region(pa: nat, va: nat, size: nat, attrs: nat)

  /** Some entry of the level lies whole inside the region, so the builder uses the level. */
  ghost predicate UsesLevel(r: Region, level: nat)
    requires 1 <= level <= 3
  {
    var size := LevelSize(level);
    (r.va + size - 1) / size * size + size <= r.va + r.size
  }

  /** The builder tests this itself. */
  ghost predicate PageAligned(r: Region) {
    r.va % 0x1000 == 0 && r.size % 0x1000 == 0
  }

  /** What the builder takes from its callers: addresses within range, and a page-aligned pa. */
  ghost predicate InRange(r: Region) {
    && r.va + r.size <= VA_LIMIT
    && r.pa + r.size <= ADDR_LIMIT
    && (PageAligned(r) && r.size > 0 ==> r.pa % 0x1000 == 0)
  }

  /** The offset from va to pa is a multiple of every entry size the region gets blocks of. */
  ghost predicate OffsetFits(r: Region) {
    forall level :: 1 <= level <= 3 && UsesLevel(r, level) ==> (r.pa - r.va) % LevelSize(level) == 0
  }

  /** A region that comes out as it asks; RegionMappedIff says that no other does. */
  ghost predicate Mappable(r: Region) {
    InRange(r) && OffsetFits(r)
  }

  ghost predicate InRegion(r: Region, x: nat) { r.va <= x < r.va + r.size }

  ghost function RegionOutput(r: Region, x: nat): Output
    requires InRegion(r, x)
  {
    Output(r.pa + (x - r.va), Meaning(r.attrs))
  }

  /** The simple form: the last region that reaches x decides, page by page. */
  ghost function LastWriter(regions: seq<Region>, x: nat): Option<Output> {
    if regions == [] then None
    else
      var last := regions[|regions| - 1];
      if InRegion(last, x) then Some(RegionOutput(last, x)) else LastWriter(regions[..|regions| - 1], x)
  }

  /** Region i is the last one to reach x. */
  ghost predicate IsLast(regions: seq<Region>, i: nat, x: nat) {
    && i < |regions| && x < VA_LIMIT && regions[i].va <= x < regions[i].va + regions[i].size
    && forall j :: i < j < |regions| ==> !(regions[j].va <= x < regions[j].va + regions[j].size)
  }

  lemma {:induction false} LastOne(regions: seq<Region>, i: nat, x: nat)
    requires IsLast(regions, i, x)
    ensures LastWriter(regions, x) == Some(RegionOutput(regions[i], x))
  {
    hide Meaning;
    var n := |regions| - 1;
    if i < n {
      LastOne(regions[..n], i, x);
    }
  }

  lemma {:induction false} NoWriter(regions: seq<Region>, x: nat)
    requires forall r :: r in regions ==> !(r.va <= x < r.va + r.size)
    ensures LastWriter(regions, x) == None
  {
    if regions != [] {
      NoWriter(regions[..|regions| - 1], x);
    }
  }

  /** What the last region asks for is what the walk ends on. */
  lemma LastDecides(addr: nat, words: seq<nat>, regions: seq<Region>, i: nat, x: nat)
    requires IsLast(regions, i, x) && Translate(addr, words, x) == LastWriter(regions, x)
    ensures Translate(addr, words, x).Some?
    ensures Translate(addr, words, x).value.pa == regions[i].pa + (x - regions[i].va)
    ensures HasAttrs(WalkedTo(addr, words, x), regions[i].attrs)
  {
    hide Meaning, AttrOf, HasAttrs;
    LastOne(regions, i, x);
    MeaningBits(WalkedTo(addr, words, x), regions[i].attrs);
  }

  /** One region mapped: its pages translate as it asks, every other address as before. */
  ghost predicate RegionMapped(addr: nat, orig: seq<nat>, words: seq<nat>, r: Region) {
    forall x :: 0 <= x < VA_LIMIT ==>
      Translate(addr, words, x) == if InRegion(r, x) then Some(RegionOutput(r, x)) else Translate(addr, orig, x)
  }

  // What the builder makes of a region, aligned to its blocks or not.

  /** The entry of the level around x lies whole inside the region. */
  ghost predicate Fits(r: Region, x: nat, level: nat)
    requires 1 <= level <= 3
  {
    var size := LevelSize(level);
    r.va <= x / size * size && x / size * size + size <= r.va + r.size
  }

  /** The level x is mapped at: that of the largest entry around it that fits. */
  ghost function BuiltLevel(r: Region, x: nat): (level: nat)
    ensures 1 <= level <= 3
  {
    if Fits(r, x, 1) then 1 else if Fits(r, x, 2) then 2 else 3
  }

  lemma BuiltInside(r: Region, x: nat)
    requires PageAligned(r) && InRegion(r, x)
    ensures Fits(r, x, BuiltLevel(r, x))
  {
    var a, n, q := r.va / 0x1000, r.size / 0x1000, x / 0x1000;
    assert r.va == 0x1000 * a && r.size == 0x1000 * n;
    assert a <= q < a + n;
  }

  /** The entry around x is sent to its own pa, rounded down to the size of the entry. */
  ghost function BuiltOutput(r: Region, x: nat): Output
    requires PageAligned(r) && InRegion(r, x)
  {
    BuiltInside(r, x);
    var level := BuiltLevel(r, x);
    var start := x / LevelSize(level) * LevelSize(level);
    Output(Rounded(r.pa + (start - r.va), level) + x % LevelSize(level), Meaning(r.attrs))
  }

  /** One region built: every other address translates as before. */
  ghost predicate RegionBuilt(addr: nat, orig: seq<nat>, words: seq<nat>, r: Region)
    requires PageAligned(r)
  {
    forall x :: 0 <= x < VA_LIMIT ==>
      Translate(addr, words, x) == if InRegion(r, x) then Some(BuiltOutput(r, x)) else Translate(addr, orig, x)
  }

  /** An address comes out as asked if and only if the offset is a multiple of its entry's size. */
  lemma BuiltAsAsked(r: Region, x: nat)
    requires PageAligned(r) && InRegion(r, x)
    ensures BuiltOutput(r, x) == RegionOutput(r, x) <==> (r.pa - r.va) % LevelSize(BuiltLevel(r, x)) == 0
  {
    hide Meaning, Fits, BuiltLevel;
    BuiltInside(r, x);
    var level := BuiltLevel(r, x);
    var size := LevelSize(level);
    Recompose(x, size);
    assert x / size * size >= r.va by { FitsMeans(r, x, level); }
    OffsetRounds(r.pa, r.va, x / size, size);
  }

  lemma FitsMeans(r: Region, x: nat, level: nat)
    requires 1 <= level <= 3 && Fits(r, x, level)
    ensures x / LevelSize(level) * LevelSize(level) >= r.va
  {
  }

  lemma OffsetRounds(pa: nat, va: nat, q: nat, size: nat)
    requires size > 0 && q * size >= va
    ensures (pa + (q * size - va)) / size * size == pa + (q * size - va) <==> (pa - va) % size == 0
  {
    var b := pa + (q * size - va);
    Recompose(b, size);
    var e := (pa - va) / size;
    assert pa - va == size * e + (pa - va) % size;
    assert b == size * (e + q) + (pa - va) % size by { assert size * (e + q) == size * e + size * q; }
    Quotient(b, size, e + q, (pa - va) % size);
  }

  /** The region is mapped as it asks if and only if its offset fits. */
  lemma RegionMappedIff(addr: nat, orig: seq<nat>, words: seq<nat>, r: Region)
    requires InRange(r) && PageAligned(r) && RegionBuilt(addr, orig, words, r)
    ensures RegionMapped(addr, orig, words, r) <==> OffsetFits(r)
  {
    hide Translate, RegionOutput, BuiltOutput, Fits, BuiltLevel, Rounded;
    if OffsetFits(r) {
      forall x | InRegion(r, x) ensures BuiltOutput(r, x) == RegionOutput(r, x) {
        BuiltAsAsked(r, x);
        BuiltInside(r, x);
        FitsUses(r, x, BuiltLevel(r, x));
      }
    } else {
      var level :| 1 <= level <= 3 && UsesLevel(r, level) && (r.pa - r.va) % LevelSize(level) != 0;
      var x := FirstOf(r, level);
      BuiltAsAsked(r, x);
      assert Translate(addr, words, x) == Some(BuiltOutput(r, x));
    }
  }

  /** 2 MiB at va 0 asked to go to 0x1000 goes to 0: every address comes out a page too low. */
  lemma PageTooLow(attrs: nat, x: nat)
    requires x < 0x20_0000
    ensures var r := Region(0x1000, 0, 0x20_0000, attrs);
            && InRange(r) && PageAligned(r) && !OffsetFits(r)
            && BuiltOutput(r, x).pa == x && RegionOutput(r, x).pa == x + 0x1000
  {
    var r := Region(0x1000, 0, 0x20_0000, attrs);
    assert UsesLevel(r, 2);
    assert Fits(r, x, 2) && !Fits(r, x, 1);
  }

  lemma FitsUses(r: Region, x: nat, level: nat)
    requires 1 <= level <= 3 && Fits(r, x, level)
    ensures UsesLevel(r, level)
  {
    var size := LevelSize(level);
    var q := x / size;
    assert r.va + size - 1 <= q * size + (size - 1);
    assert (r.va + size - 1) / size <= q;
  }

  /** The first entry of a level inside the region is mapped at that level or a higher one. */
  lemma FirstOf(r: Region, level: nat) returns (x: nat)
    requires InRange(r) && PageAligned(r) && 1 <= level <= 3
    requires UsesLevel(r, level) && (r.pa - r.va) % LevelSize(level) != 0
    ensures InRegion(r, x) && x < VA_LIMIT && (r.pa - r.va) % LevelSize(BuiltLevel(r, x)) != 0
  {
    var size := LevelSize(level);
    var q := (r.va + size - 1) / size;
    x := q * size;
    Recompose(r.va + size - 1, size);
    Quotient(x, size, q, 0);
    assert r.va <= x && x + size <= r.va + r.size;
    assert Fits(r, x, level);
    hide LevelSize, Fits;
    assert BuiltLevel(r, x) <= level;
    hide BuiltLevel;
    if (r.pa - r.va) % LevelSize(BuiltLevel(r, x)) == 0 {
      Multiples(r.pa - r.va, BuiltLevel(r, x), level);
    }
  }

  lemma Multiples(d: int, high: nat, low: nat)
    requires 1 <= high <= low <= 3 && d % LevelSize(high) == 0
    ensures d % LevelSize(low) == 0
  {
    var f := if low == high then 1 else if low == high + 1 then 512 else 0x4_0000;
    var q := d / LevelSize(high);
    assert d == LevelSize(high) * q && LevelSize(high) == LevelSize(low) * f;
    Quotient(d, LevelSize(low), f * q, 0);
  }

  /** Translation after mapping the first part of a region, up to va. */
  ghost predicate MappedUpTo(addr: nat, orig: seq<nat>, words: seq<nat>, r: Region, va: nat)
    requires PageAligned(r)
  {
    forall x :: 0 <= x < VA_LIMIT ==>
      Translate(addr, words, x)
      == if r.va <= x < va && InRegion(r, x) then Some(BuiltOutput(r, x)) else Translate(addr, orig, x)
  }

  /**
   The loop variables of InitXlatTables: what is left to map, why the level is not lower, and
   that no entry that fits has been cut in two.
   */
  ghost predicate Cursor(r: Region, va: nat, pa: int, size: nat, level: nat) {
    && r.va <= va && va + size == r.va + r.size && pa == r.pa + (va - r.va)
    && va % 0x1000 == 0 && size % 0x1000 == 0 && 1 <= level <= 3
    && (forall l :: 1 <= l < level ==> va % LevelSize(l) != 0 || size < LevelSize(l))
    && (forall l :: 1 <= l <= 3 && va % LevelSize(l) != 0 ==> !Fits(r, va, l))
  }

  lemma CursorStart(r: Region)
    requires PageAligned(r)
    ensures Cursor(r, r.va, r.pa, r.size, BASE_LEVEL)
  {
  }

  lemma CursorEnd(r: Region, va: nat, pa: nat, level: nat)
    requires Cursor(r, va, pa, 0, level)
    ensures va == r.va + r.size
  {
  }

  lemma CursorInside(r: Region, va: nat, pa: nat, size: nat, level: nat)
    requires InRange(r) && Cursor(r, va, pa, size, level) && size > 0
    ensures r.va <= va < r.va + r.size <= VA_LIMIT && r.va + r.size - va == size
  {
  }

  lemma CursorBlock(r: Region, va: nat, pa: nat, size: nat, level: nat)
    requires Cursor(r, va, pa, size, level) && size >= LevelSize(level) && va % LevelSize(level) == 0
    ensures Cursor(r, va + LevelSize(level), pa + LevelSize(level), size - LevelSize(level), BASE_LEVEL)
  {
    WholePages(level);
    Multiple(va, LevelSize(level), 0x1000);
    Multiple(size, LevelSize(level), 0x1000);
    forall l | 1 <= l <= 3
      ensures (va + LevelSize(level)) % LevelSize(l) != 0 ==> !Fits(r, va + LevelSize(level), l)
    {
      CursorCut(r, va, pa, size, level, l);
    }
    hide Fits, LevelSize;
  }

  lemma WholePages(level: nat)
    requires 1 <= level <= 3
    ensures LevelSize(level) % 0x1000 == 0 && LevelSize(level) > 0
  {
  }

  lemma CursorCut(r: Region, va: nat, pa: nat, size: nat, level: nat, l: nat)
    requires Cursor(r, va, pa, size, level) && size >= LevelSize(level) && va % LevelSize(level) == 0 && 1 <= l <= 3
    ensures (va + LevelSize(level)) % LevelSize(l) != 0 ==> !Fits(r, va + LevelSize(level), l)
  {
    hide Fits;
    if l >= level {
      NextEntry(va, level, l);
    } else {
      SmallStep(va, level, l);
      CursorTooBig(r, va, pa, size, level, l);
      if (va + LevelSize(level)) / LevelSize(l) == va / LevelSize(l) {
        FitsSame(r, va, va + LevelSize(level), l);
      }
    }
  }

  lemma FitsSame(r: Region, x: nat, y: nat, level: nat)
    requires 1 <= level <= 3 && x / LevelSize(level) == y / LevelSize(level)
    ensures Fits(r, x, level) <==> Fits(r, y, level)
  {
  }

  /** No larger entry around va fits. */
  lemma CursorTooBig(r: Region, va: nat, pa: nat, size: nat, level: nat, l: nat)
    requires Cursor(r, va, pa, size, level) && 1 <= l < level
    ensures !Fits(r, va, l)
  {
    if va % LevelSize(l) == 0 {
      InEntry(va, va, l);
    }
  }

  /** The entry about to be written is the one all its addresses are built with. */
  lemma CursorLevel(r: Region, va: nat, pa: nat, size: nat, level: nat, x: nat)
    requires Cursor(r, va, pa, size, level) && size >= LevelSize(level) && va % LevelSize(level) == 0
    requires va <= x < va + LevelSize(level)
    ensures BuiltLevel(r, x) == level && x / LevelSize(level) * LevelSize(level) == va
  {
    InEntry(x, va, level);
    assert Fits(r, x, level);
    forall l | 1 <= l < level ensures !Fits(r, x, l) {
      SameIndex(x, va, level, l);
      CursorTooBig(r, va, pa, size, level, l);
      FitsSame(r, x, va, l);
    }
  }

  lemma CursorDown(r: Region, va: nat, pa: nat, size: nat, level: nat)
    requires Cursor(r, va, pa, size, level) && size > 0
    requires va % LevelSize(level) != 0 || size < LevelSize(level)
    ensures level < 3 && Cursor(r, va, pa, size, level + 1)
  {
  }

  lemma WholeRegion(addr: nat, orig: seq<nat>, words: seq<nat>, r: Region)
    requires PageAligned(r) && MappedUpTo(addr, orig, words, r, r.va + r.size)
    ensures RegionBuilt(addr, orig, words, r)
  {
  }

  lemma BlockAddress(r: Region, pa: nat, va: nat, level: nat)
    requires InRange(r) && PageAligned(r)
    requires 1 <= level <= 3 && r.va <= va && va + LevelSize(level) <= r.va + r.size
    requires va % LevelSize(level) == 0 && pa == r.pa + (va - r.va)
    ensures pa % 0x1000 == 0 && pa < ADDR_LIMIT
    ensures OffsetFits(r) ==> pa % LevelSize(level) == 0
  {
    assert r.pa % 0x1000 == 0;
    hide UsesLevel, LevelSize;
    SubPage(va, level);
    Multiple(va, r.va, 0x1000);
    Multiple(va - r.va, r.pa, 0x1000);
    if OffsetFits(r) {
      InEntry(va, va, level);
      FitsUses(r, va, level);
      Multiple(r.pa - r.va, va, LevelSize(level));
    }
  }

  lemma Multiple(a: int, b: int, size: nat)
    requires size > 0 && a % size == 0 && b % size == 0
    ensures (a - b) % size == 0 && (a + b) % size == 0
  {
    var p, q := a / size, b / size;
    assert a - b == size * (p - q) && a + b == size * (p + q);
    Quotient(a - b, size, p - q, 0);
    Quotient(a + b, size, p + q, 0);
  }

  lemma SubPage(va: nat, level: nat)
    requires 1 <= level <= 3 && va % LevelSize(level) == 0
    ensures va % 0x1000 == 0
  {
    var q := va / LevelSize(level);
    var f := if level == 1 then 0x4_0000 else if level == 2 then 0x200 else 1;
    assert va == 0x1000 * (q * f);
    Quotient(va, 0x1000, q * f, 0);
  }

  /** An entry sends its addresses where the region asks if and only if pa is aligned to it. */
  lemma BlockNeedsAlignedPa(desc: nat, pa: nat, attrs: nat, level: nat, x: nat)
    requires 1 <= level <= 3 && EncodesBlock(desc, pa, attrs, level)
    ensures Decode(desc, level, x) == Some(Output(pa + x % LevelSize(level), Meaning(attrs)))
       <==> pa % LevelSize(level) == 0
  {
    hide And, Or, Pow2, AttrOf, Meaning, EncodesBlock;
    DecodeBlock(desc, pa, attrs, level, x);
    Recompose(pa, LevelSize(level));
  }

  lemma InEntry(x: nat, va: nat, level: nat)
    requires 1 <= level <= 3 && va % LevelSize(level) == 0
    ensures x / LevelSize(level) == va / LevelSize(level) <==> va <= x < va + LevelSize(level)
    ensures va <= x < va + LevelSize(level) ==> x % LevelSize(level) == x - va
  {
    var size := LevelSize(level);
    var q := va / size;
    if va <= x < va + size {
      Quotient(x, size, q, x - va);
    }
  }

  lemma AttrsTruncated(attrs: nat)
    ensures Meaning(attrs % 0x1_0000_0000) == Meaning(attrs)
  {
    var low := attrs % 0x1_0000_0000;
    var f := attrs / 0x1_0000_0000;
    Quotient(attrs, 8, f * 0x2000_0000 + low / 8, low % 8);
    Quotient(attrs / 8, 2, f * 0x1000_0000 + low / 8 / 2, low / 8 % 2);
    Quotient(attrs, 16, f * 0x1000_0000 + low / 16, low % 16);
    Quotient(attrs / 16, 2, f * 0x800_0000 + low / 16 / 2, low / 16 % 2);
    Quotient(attrs, 32, f * 0x800_0000 + low / 32, low % 32);
    Quotient(attrs / 32, 2, f * 0x400_0000 + low / 32 / 2, low / 32 % 2);
  }

  // Which entries along the region needed a new table: at each level only the entry
  // holding its first byte and the entry holding its last.

  ghost function Ends(r: Region, level: nat): set<nat>
    requires 1 <= level <= 3 && r.size > 0
  {
    {r.va / LevelSize(level), (r.va + r.size - 1) / LevelSize(level)}
  }

  ghost predicate HasTable(addr: nat, words: seq<nat>, va: nat, level: nat)
    requires 1 <= level < 3
  {
    Find(addr, words, va, level + 1).Some?
  }

  ghost predicate TablesMade(addr: nat, words: seq<nat>, r: Region, va: nat, level: nat, made: set<nat>)
    requires 1 <= level < 3 && r.size > 0
  {
    && made <= Ends(r, level)
    && (forall g :: g in made ==> g <= va / LevelSize(level))
    && (va / LevelSize(level) in made && va < r.va + r.size ==> HasTable(addr, words, va, level))
    && (va < r.va + r.size && va % LevelSize(level) != 0 ==> va / LevelSize(level) in Ends(r, level))
  }

  /** Before a table is made, at most three were. */
  lemma Room(addr: nat, words: seq<nat>, r: Region, va: nat, level: nat, made1: set<nat>, made2: set<nat>)
    requires 1 <= level < 3 && r.size > 0 && r.va <= va < r.va + r.size
    requires !HasTable(addr, words, va, level)
    requires va % LevelSize(level) != 0 || r.va + r.size - va < LevelSize(level)
    requires TablesMade(addr, words, r, va, 1, made1) && TablesMade(addr, words, r, va, 2, made2)
    ensures |made1| + |made2| < 4
  {
    RaggedEntry(r, va, level);
    var g := va / LevelSize(level);
    AtMostTwo(r, 1, made1);
    AtMostTwo(r, 2, made2);
    if level == 1 {
      AtMostTwo(r, 1, made1 + {g});
    } else {
      AtMostTwo(r, 2, made2 + {g});
    }
  }

  lemma AtMostFour(addr: nat, words: seq<nat>, r: Region, va: nat, made1: set<nat>, made2: set<nat>)
    requires r.size > 0
    requires TablesMade(addr, words, r, va, 1, made1) && TablesMade(addr, words, r, va, 2, made2)
    ensures |made1| + |made2| <= 4
  {
    AtMostTwo(r, 1, made1);
    AtMostTwo(r, 2, made2);
  }

  lemma AtMostTwo(r: Region, level: nat, made: set<nat>)
    requires 1 <= level <= 3 && r.size > 0 && made <= Ends(r, level)
    ensures |made| <= 2
  {
    var a, b := r.va / LevelSize(level), (r.va + r.size - 1) / LevelSize(level);
    assert made - {a} <= {b};
    assert |made - {a}| <= 1 by {
      if b in made - {a} { assert made - {a} == {b}; } else { assert made - {a} == {}; }
    }
    assert |made| <= |made - {a}| + 1 by {
      if a in made { assert made == (made - {a}) + {a}; } else { assert made == made - {a}; }
    }
  }

  /** An entry that a block cannot fill is the first or the last one of the region. */
  lemma RaggedEntry(r: Region, va: nat, level: nat)
    requires 1 <= level <= 3 && r.va <= va < r.va + r.size
    requires va % LevelSize(level) != 0 ==> va / LevelSize(level) in Ends(r, level)
    requires va % LevelSize(level) != 0 || r.va + r.size - va < LevelSize(level)
    ensures va / LevelSize(level) in Ends(r, level)
  {
    if va % LevelSize(level) == 0 {
      InEntry(r.va + r.size - 1, va, level);
    }
  }

  /** Whether the tables down to a level exist depends only on the entry above it. */
  lemma {:induction false} FindTogether(addr: nat, words: seq<nat>, shape: seq<Table>, from: nat, va: nat,
                                        x: nat, target: nat)
    requires WellFormed(addr, words, shape) && Covers(shape, from, va) && Covers(shape, from, x)
    requires LevelOf(shape, from) < target <= 3
    requires x / LevelSize(target - 1) == va / LevelSize(target - 1)
    ensures FindFrom(addr, words, from, LevelOf(shape, from), va, target).Some?
       <==> FindFrom(addr, words, from, LevelOf(shape, from), x, target).Some?
    decreases 3 - LevelOf(shape, from)
  {
    hide And, Or, Pow2, VaIndex, NextTable, AttrOf, Meaning;
    var level := LevelOf(shape, from);
    if words[from] % 4 == TABLE_DESC {
      ChildCovers(addr, words, shape, from, va);
      ChildCovers(addr, words, shape, from, x);
      if level + 1 < target {
        SameIndex(x, va, target - 1, level + 1);
        FindTogether(addr, words, shape, Child(addr, words[from], va, level + 1), va, x, target);
      }
    }
  }

  lemma HasTableTogether(addr: nat, words: seq<nat>, shape: seq<Table>, va: nat, x: nat, level: nat)
    requires WellFormed(addr, words, shape) && 1 <= level < 3 && va < VA_LIMIT && x < VA_LIMIT
    requires x / LevelSize(level) == va / LevelSize(level)
    ensures HasTable(addr, words, va, level) <==> HasTable(addr, words, x, level)
  {
    hide And, Or, Pow2, VaIndex, NextTable, AttrOf, Meaning;
    BaseCovers(addr, words, shape, va);
    BaseCovers(addr, words, shape, x);
    SameIndex(x, va, level, 1);
    FindTogether(addr, words, shape, VaIndex(va, BASE_LEVEL), va, x, level + 1);
  }

  /** Rewriting an entry keeps every search that stops at or above its level. */
  lemma {:induction false} FindKept(addr: nat, words: seq<nat>, words': seq<nat>, shape: seq<Table>,
                                    slot: nat, from: nat, x: nat, target: nat)
    requires WellFormed(addr, words, shape) && AgreeExcept(words, words', shape, slot)
    requires slot < Used(shape) && Covers(shape, from, x)
    requires LevelOf(shape, from) <= target <= LevelOf(shape, slot)
    ensures FindFrom(addr, words', from, LevelOf(shape, from), x, target)
         == FindFrom(addr, words, from, LevelOf(shape, from), x, target)
    decreases 3 - LevelOf(shape, from)
  {
    hide And, Or, Pow2, VaIndex, NextTable, AttrOf, Meaning;
    var level := LevelOf(shape, from);
    if level < target && words[from] % 4 == TABLE_DESC {
      assert from != slot;
      ChildCovers(addr, words, shape, from, x);
      FindKept(addr, words, words', shape, slot, Child(addr, words[from], x, level + 1), x, target);
    }
  }

  lemma FindKeptVa(addr: nat, words: seq<nat>, words': seq<nat>, shape: seq<Table>,
                   slot: nat, level: nat, va: nat, x: nat, target: nat)
    requires WellFormed(addr, words, shape) && AgreeExcept(words, words', shape, slot)
    requires 1 <= target <= level <= 3 && x < VA_LIMIT && va < VA_LIMIT
    requires Find(addr, words, va, level) == Some(slot)
    ensures Find(addr, words', x, target) == Find(addr, words, x, target)
  {
    hide And, Or, Pow2, VaIndex, NextTable, AttrOf, Meaning;
    TranslateAfter(addr, words, words, shape, slot, level, va, va);
    BaseCovers(addr, words, shape, x);
    FindKept(addr, words, words', shape, slot, VaIndex(x, BASE_LEVEL), x, target);
  }

  lemma FindNext(addr: nat, words: seq<nat>, shape: seq<Table>, va: nat, level: nat, slot: nat)
    requires WellFormed(addr, words, shape) && va < VA_LIMIT && 1 <= level < 3
    requires Find(addr, words, va, level) == Some(slot)
    ensures slot < |words| && (words[slot] % 4 == TABLE_DESC <==> HasTable(addr, words, va, level))
  {
    hide And, Or, Pow2, VaIndex, NextTable, AttrOf, Meaning;
    BaseCovers(addr, words, shape, va);
    FindCovers(addr, words, shape, VaIndex(va, BASE_LEVEL), va, level);
    if words[slot] % 4 == TABLE_DESC {
      FindDeeper(addr, words, shape, VaIndex(va, BASE_LEVEL), va, level);
    } else {
      NoDeeper(addr, words, shape, VaIndex(va, BASE_LEVEL), va, level, slot);
    }
  }

  lemma BaseFound(addr: nat, words: seq<nat>, shape: seq<Table>, va: nat)
    requires WellFormed(addr, words, shape) && va < VA_LIMIT
    ensures Find(addr, words, va, BASE_LEVEL).Some?
  {
    BaseCovers(addr, words, shape, va);
  }

  /** What the entry found for va can be, and what lies below it. */
  lemma EntryKinds(addr: nat, words: seq<nat>, shape: seq<Table>, pte: nat, level: nat, va: nat)
    requires WellFormed(addr, words, shape) && va < VA_LIMIT && 1 <= level <= 3
    requires Find(addr, words, va, level) == Some(pte)
    ensures pte < WORDS && words[pte] < WORD
    ensures words[pte] % 4 in {INVALID_DESC, BLOCK_DESC, TABLE_DESC}
    ensures level < 3 ==> (words[pte] % 4 == TABLE_DESC <==> HasTable(addr, words, va, level))
    ensures level == 1 && words[pte] % 4 != TABLE_DESC ==> !HasTable(addr, words, va, 2)
  {
    hide And, Or, Pow2, VaIndex, NextTable, AttrOf, Meaning;
    TranslateAfter(addr, words, words, shape, pte, level, va, va);
    assert SlotOk(addr, words, shape, pte);
    if level < 3 {
      FindNext(addr, words, shape, va, level, pte);
    }
  }

  lemma {:induction false} NoDeeper(addr: nat, words: seq<nat>, shape: seq<Table>, from: nat, va: nat,
                                    target: nat, slot: nat)
    requires WellFormed(addr, words, shape) && Covers(shape, from, va)
    requires LevelOf(shape, from) <= target < 3
    requires FindFrom(addr, words, from, LevelOf(shape, from), va, target) == Some(slot)
    requires slot < |words| && words[slot] % 4 != TABLE_DESC
    ensures FindFrom(addr, words, from, LevelOf(shape, from), va, target + 1) == None
    decreases 3 - LevelOf(shape, from)
  {
    hide And, Or, Pow2, VaIndex, NextTable, AttrOf, Meaning;
    var level := LevelOf(shape, from);
    if level < target {
      ChildCovers(addr, words, shape, from, va);
      NoDeeper(addr, words, shape, Child(addr, words[from], va, level + 1), va, target, slot);
    }
  }

  class Mmu {
    const addr: nat          // address of s_xlat_tables
    const mem: array<nat>    // s_base_xlat_table, then s_xlat_tables
    var idx: nat             // tables handed out by NewXlatTablesEntry
    ghost var shape: seq<Table>

    /** The tables form a tree. */
    ghost predicate Sound()
      reads this, mem
    {
      mem.Length == WORDS && idx == |shape| && WellFormed(addr, mem[..], shape)
    }

    /** And every block in it is aligned, so that it can be split. */
    ghost predicate Valid()
      reads this, mem
    {
      Sound() && Aligned(mem[..], shape)
    }

    constructor (addr: nat)
      requires addr % 0x1000 == 0 && addr + 0x1000 * MAX_TABLES <= ADDR_LIMIT
      ensures Valid() && fresh(mem) && this.addr == addr && idx == 0
      ensures forall x :: 0 <= x < VA_LIMIT ==> Translate(addr, mem[..], x) == None
    {
      this.addr := addr;
      mem := new nat[WORDS](_ => 0);
      idx := 0;
      shape := [];
      new;
      EmptyTables(addr, mem[..]);
    }

    /** None: the ASSERT that tables remain stops the system. */
    method NewXlatTablesEntry() returns (table: Option<nat>)
      requires addr % 0x1000 == 0 && addr + 0x1000 * MAX_TABLES <= ADDR_LIMIT
      modifies this`idx
      ensures table == if old(idx) < MAX_TABLES then Some(addr + 0x1000 * old(idx)) else None
      ensures table.Some? ==> table.value % 0x1000 == 0 && table.value < ADDR_LIMIT
      ensures idx == if table.Some? then old(idx) + 1 else old(idx)
    {
      if idx >= MAX_TABLES {
        return None;
      }
      table := Some(addr + 0x1000 * idx);
      idx := idx + 1;
    }

    method FindPteIndex(va: nat, level: nat) returns (pte: Option<nat>)
      requires Sound() && va < VA_LIMIT && 1 <= level <= 3
      ensures pte == Find(addr, mem[..], va, level)
    {
      hide And, Or, Pow2, VaIndex, NextTable, AttrOf, Meaning;
      var slot: int := VaIndex(va, BASE_LEVEL);
      BaseCovers(addr, mem[..], shape, va);
      var i := BASE_LEVEL;
      while i <= TABLE_LEVEL_MAX
        invariant 1 <= i <= level
        invariant 0 <= slot < Used(shape) && LevelOf(shape, slot) == i && Covers(shape, slot, va)
        invariant FindFrom(addr, mem[..], slot, i, va, level) == Find(addr, mem[..], va, level)
        decreases 4 - i
      {
        if i == level {
          return Some(slot);
        }
        if DescType(mem[slot]) != TABLE_DESC {
          return None;
        }
        ChildCovers(addr, mem[..], shape, slot, va);
        slot := BASE_ENTRIES + (NextTable(mem[slot]) - addr) / 8 + VaIndex(va, i + 1);
        i := i + 1;
      }
      return None;
    }

    /** Hangs an all-zero table under an invalid entry; false when no table is left. */
    method CreateTable(pte: nat, level: nat, ghost va: nat) returns (ok: bool)
      requires Sound() && 1 <= level < 3 && va < VA_LIMIT
      requires Find(addr, mem[..], va, level) == Some(pte) && pte < WORDS
      requires mem[pte] % 4 == INVALID_DESC
      modifies this, mem
      ensures ok == (old(idx) < MAX_TABLES)
      ensures ok ==> Grew(old(mem[..]), old(shape), pte, level, va)
    {
      hide And, Or, Pow2, VaIndex, NextTable, AttrOf, Meaning, KeepsAligned, SameWalks, SlotOk;
      ghost var before := mem[..];
      ghost var sh := shape;
      var table := NewXlatTablesEntry();
      if table.None? {
        return false;
      }
      mem[pte] := TableDesc(table.value);
      ZeroEntries(addr, before, mem[..], sh, pte, level, va);
      HangDone(addr, before, mem[..], sh, pte, level, va);
      StaysAligned(addr, before, mem[..], sh, pte, level);
      shape := Grown(sh, pte);
      ok := true;
    }

    /** Replaces a block by a table of 512 smaller blocks or pages. */
    method SplitPteBlockDesc(pte: nat, level: nat, ghost va: nat) returns (ok: bool)
      requires Sound() && 1 <= level < 3 && va < VA_LIMIT
      requires Find(addr, mem[..], va, level) == Some(pte) && pte < WORDS
      requires AlignedBlock(mem[pte], level)
      modifies this, mem
      ensures ok == (old(idx) < MAX_TABLES)
      ensures ok ==> Grew(old(mem[..]), old(shape), pte, level, va)
    {
      hide And, Or, Pow2, VaIndex, NextTable, AttrOf, Meaning, KeepsAligned, SameWalks;
      ghost var before := mem[..];
      ghost var sh := shape;
      var block := mem[pte];
      assert pte < Used(sh) && block < WORD by {
        TranslateAfter(addr, before, before, sh, pte, level, va, va);
        assert SlotOk(addr, before, sh, pte);
      }
      var table := NewXlatTablesEntry();
      if table.None? {
        return false;
      }
      ghost var t := |sh|;
      var base := BASE_ENTRIES + (table.value - addr) / 8;
      assert base == Slot(t, 0);
      FillSplitTable(base, block, level);
      mem[pte] := TableDesc(table.value);
      SplitEntries(addr, before, mem[..], sh, pte, level, va);
      HangDone(addr, before, mem[..], sh, pte, level, va);
      StaysAligned(addr, before, mem[..], sh, pte, level);
      shape := Grown(sh, pte);
      ok := true;
    }

    /** The loop of SplitPteBlockDesc over the entries of the new table. */
    method FillSplitTable(base: nat, block: nat, level: nat)
      requires 1 <= level < 3 && base + ENTRIES <= mem.Length
      modifies mem
      ensures forall k :: 0 <= k < ENTRIES ==> mem[base + k] == SplitEntry(block, k, level)
      ensures forall s :: 0 <= s < mem.Length && !(base <= s < base + ENTRIES) ==> mem[s] == old(mem[s])
    {
      var i := 0;
      while i < ENTRIES
        invariant i <= ENTRIES
        invariant forall k :: 0 <= k < i ==> mem[base + k] == SplitEntry(block, k, level)
        invariant forall s :: 0 <= s < mem.Length && !(base <= s < base + i) ==> mem[s] == old(mem[s])
      {
        mem[base + i] := Or(block, i * LevelSize(level + 1));
        if level == 2 {
          mem[base + i] := Or(mem[base + i], PAGE_DESC);
        }
        i := i + 1;
      }
    }

    /** A table was hung under pte: no translation changed, the search goes one level deeper. */
    ghost predicate Grew(before: seq<nat>, sh: seq<Table>, pte: nat, level: nat, va: nat)
      requires 1 <= level < 3
      reads this, mem
    {
      && Sound() && idx == |sh| + 1 && SameWalks(addr, before, mem[..], level, va)
      && KeepsAligned(before, sh, mem[..], shape)
    }

    /** The region is mapped up to va and every new table is booked. */
    ghost predicate Progress(orig: seq<nat>, idx0: nat, region: Region, va: nat, made1: set<nat>, made2: set<nat>)
      requires region.size > 0 && PageAligned(region)
      reads this, mem
    {
      && Sound() && idx == idx0 + |made1| + |made2|
      && AlignedBut(mem[..], shape, region.va, va)
      && (OffsetFits(region) ==> Aligned(mem[..], shape))
      && MappedUpTo(addr, orig, mem[..], region, va)
      && TablesMade(addr, mem[..], region, va, 1, made1)
      && TablesMade(addr, mem[..], region, va, 2, made2)
    }

    /** Writes the block or page descriptor for va; the rest of the region is still to come. */
    method MapBlock(pte: nat, pa: nat, level: nat, ghost va: nat, ghost size: nat, region: Region,
                    ghost orig: seq<nat>, ghost idx0: nat, ghost made1: set<nat>, ghost made2: set<nat>)
      requires region.size > 0 && PageAligned(region) && Progress(orig, idx0, region, va, made1, made2)
      requires InRange(region) && Cursor(region, va, pa, size, level)
      requires size >= LevelSize(level) && va % LevelSize(level) == 0
      requires Find(addr, mem[..], va, level) == Some(pte)
      modifies mem
      ensures Progress(orig, idx0, region, va + LevelSize(level), made1, made2)
    {
      hide And, Or, Pow2, VaIndex, NextTable, AttrOf, Meaning;
      ghost var before := mem[..];
      var attrs := region.attrs % 0x1_0000_0000;
      BlockAddress(region, pa, va, level);
      TranslateAfter(addr, before, before, shape, pte, level, va, va);
      var desc := BlockDesc(pa, attrs, level);
      mem[pte] := desc;
      assert mem[..] == before[pte := desc];
      BlockStep(addr, before, shape, pte, level, va, desc, pa, attrs);
      DecodeBlock(desc, pa, attrs, level, va);
      AlignedAfter(before, shape, pte, desc, region.va, va, level);
      MappedFurther(addr, orig, before, mem[..], region, va, level, pa, size);
      MadeAfterBlock(addr, before, mem[..], shape, region, va, level, pte, 1, made1);
      MadeAfterBlock(addr, before, mem[..], shape, region, va, level, pte, 2, made2);
    }

    /** Makes the table below an invalid entry or a block, keeping what is mapped. */
    method Descend(pte: nat, level: nat, ghost va: nat, ghost size: nat, ghost region: Region, ghost orig: seq<nat>,
                   ghost idx0: nat, ghost made1: set<nat>, ghost made2: set<nat>, split: bool)
      returns (ok: bool, ghost made1': set<nat>, ghost made2': set<nat>)
      requires region.size > 0 && PageAligned(region) && Progress(orig, idx0, region, va, made1, made2)
      requires 1 <= level < 3 && region.va <= va < region.va + region.size <= VA_LIMIT
      requires size == region.va + region.size - va
      requires va % LevelSize(level) != 0 || size < LevelSize(level)
      requires Find(addr, mem[..], va, level) == Some(pte) && pte < WORDS
      requires mem[pte] % 4 == (if split then BLOCK_DESC else INVALID_DESC)
      modifies this, mem
      ensures ok <== idx0 + 4 <= MAX_TABLES
      ensures ok ==> Progress(orig, idx0, region, va, made1', made2')
      ensures ok ==> Find(addr, mem[..], va, level + 1).Some?
    {
      hide And, Or, Pow2, VaIndex, NextTable, AttrOf, Meaning;
      ghost var before := mem[..];
      made1', made2' := made1, made2;
      EntryKinds(addr, before, shape, pte, level, va);
      Room(addr, before, region, va, level, made1, made2);
      if split {
        AlignedHere(before, region, pte, level, va);
        ok := SplitPteBlockDesc(pte, level, va);
      } else {
        ok := CreateTable(pte, level, va);
      }
      if ok {
        made1', made2' := Record(before, orig, idx0, region, va, level, made1, made2);
      }
    }

    /** The block found for va was not written for this region. */
    lemma AlignedHere(before: seq<nat>, region: Region, pte: nat, level: nat, va: nat)
      requires Sound() && before == mem[..] && 1 <= level < 3 && va < VA_LIMIT
      requires Find(addr, before, va, level) == Some(pte) && AlignedBut(before, shape, region.va, va)
      ensures pte < WORDS && (mem[pte] % 4 == BLOCK_DESC ==> AlignedBlock(mem[pte], level))
    {
      hide AlignedBlock, Find, WellFormed;
      TranslateAfter(addr, before, before, shape, pte, level, va, va);
      WordsFit(addr, before, shape);
      assert AlignedAt(before, shape, pte);
    }

    /**
     Maps one region with the largest blocks that fit. false stands for a failed ASSERT:
     the region is not page aligned or the tables ran out. What comes out is the region as it
     asks if and only if its offset fits, which the source does not test.
     */
    method InitXlatTables(region: Region) returns (ok: bool)
      requires Valid() && InRange(region)
      modifies this, mem
      ensures ok ==> PageAligned(region) && RegionBuilt(addr, old(mem[..]), mem[..], region)
      ensures ok ==> (RegionMapped(addr, old(mem[..]), mem[..], region) <==> OffsetFits(region))
      ensures ok ==> Sound() && (OffsetFits(region) ==> Valid())
      ensures ok ==> idx <= old(idx) + 4
      ensures ok <== PageAligned(region) && old(idx) + 4 <= MAX_TABLES
    {
      hide And, Or, Pow2, VaIndex, NextTable, AttrOf, Meaning, AlignedAt;
      if Offset(region.va, 3) != 0 || Offset(region.size, 3) != 0 {
        return false;
      }
      ghost var orig := mem[..];
      if region.size == 0 {
        RegionMappedIff(addr, orig, mem[..], region);
        return true;
      }
      ghost var made1: set<nat>, made2: set<nat>;
      ok, made1, made2 := MapRegion(region);
      if ok {
        AtMostFour(addr, mem[..], region, region.va + region.size, made1, made2);
        WholeRegion(addr, orig, mem[..], region);
        RegionMappedIff(addr, orig, mem[..], region);
      }
    }

    lemma ProgressStart(region: Region)
      requires Valid() && InRange(region) && PageAligned(region) && region.size > 0
      ensures Progress(mem[..], idx, region, region.va, {}, {}) && Find(addr, mem[..], region.va, BASE_LEVEL).Some?
    {
      BaseFound(addr, mem[..], shape, region.va);
    }

    /** The loop of InitXlatTables. */
    method MapRegion(region: Region) returns (ok: bool, ghost made1: set<nat>, ghost made2: set<nat>)
      requires Valid() && InRange(region) && PageAligned(region) && region.size > 0
      modifies this, mem
      ensures ok ==> Progress(old(mem[..]), old(idx), region, region.va + region.size, made1, made2)
      ensures ok <== old(idx) + 4 <= MAX_TABLES
    {
      hide WellFormed, MappedUpTo, TablesMade, Translate, Find, SameWalks, Cursor, Offset, DescType, And, InRange;
      hide AlignedBut, Aligned, OffsetFits, PageAligned;
      var va: nat, pa: nat, size: nat, level: nat := region.va, region.pa, region.size, BASE_LEVEL;
      ghost var orig := mem[..];
      ok, made1, made2 := true, {}, {};
      ProgressStart(region);
      CursorStart(region);
      while size > 0
        invariant ok && 1 <= level <= 3 && Cursor(region, va, pa, size, level)
        invariant Progress(orig, old(idx), region, va, made1, made2)
        invariant size > 0 ==> Find(addr, mem[..], va, level).Some?
        decreases size, 4 - level
      {
        CursorInside(region, va, pa, size, level);
        var found := FindPteIndex(va, level);
        var pte := found.value;
        EntryKinds(addr, mem[..], shape, pte, level, va);
        if size >= LevelSize(level) && Offset(va, level) == 0 {
          MapBlock(pte, pa, level, va, size, region, orig, old(idx), made1, made2);
          CursorBlock(region, va, pa, size, level);
          va := va + LevelSize(level);
          pa := pa + LevelSize(level);
          size := size - LevelSize(level);
          level := BASE_LEVEL;
          if size > 0 {
            CursorInside(region, va, pa, size, level);
            BaseFound(addr, mem[..], shape, va);
          }
        } else {
          CursorDown(region, va, pa, size, level);
          if DescType(mem[pte]) == INVALID_DESC {
            ok, made1, made2 := Descend(pte, level, va, size, region, orig, old(idx), made1, made2, false);
          } else if DescType(mem[pte]) == BLOCK_DESC {
            ok, made1, made2 := Descend(pte, level, va, size, region, orig, old(idx), made1, made2, true);
          } else {
            assert DescType(mem[pte]) == TABLE_DESC;
          }
          if !ok {
            return;
          }
          level := level + 1;
        }
      }
      CursorEnd(region, va, pa, level);
    }

    /** Books a new table under the entry it was made for. */
    ghost method Record(before: seq<nat>, orig: seq<nat>, idx0: nat, region: Region, va: nat, level: nat,
                        made1: set<nat>, made2: set<nat>)
      returns (made1': set<nat>, made2': set<nat>)
      requires Sound() && 1 <= level < 3 && region.va <= va < region.va + region.size <= VA_LIMIT
      requires PageAligned(region) && AlignedBut(mem[..], shape, region.va, va)
      requires OffsetFits(region) ==> Aligned(mem[..], shape)
      requires SameWalks(addr, before, mem[..], level, va) && !HasTable(addr, before, va, level)
      requires level == 1 ==> !HasTable(addr, before, va, 2)
      requires va % LevelSize(level) != 0 || region.va + region.size - va < LevelSize(level)
      requires MappedUpTo(addr, orig, before, region, va) && idx == idx0 + |made1| + |made2| + 1
      requires TablesMade(addr, before, region, va, 1, made1)
      requires TablesMade(addr, before, region, va, 2, made2)
      ensures Progress(orig, idx0, region, va, made1', made2') && HasTable(addr, mem[..], va, level)
    {
      hide And, Or, Pow2, VaIndex, NextTable, AttrOf, Meaning;
      RaggedEntry(region, va, level);
      if level == 1 {
        made1', made2' := made1 + {va / LevelSize(1)}, made2;
      } else {
        made1', made2' := made1, made2 + {va / LevelSize(2)};
      }
    }

    /** The loops over both lists. */
    method InitAll(guest: seq<Region>, kernel: seq<Region>) returns (ok: bool)
      requires Valid() && idx == 0 && forall x :: 0 <= x < VA_LIMIT ==> Translate(addr, mem[..], x) == None
      requires forall r :: r in guest + kernel ==> Mappable(r)
      modifies this, mem
      ensures ok ==> Valid() && LastWins(addr, mem[..], guest + kernel)
      ensures ok ==> forall r :: r in guest + kernel ==> PageAligned(r)
      ensures ok <== (forall r :: r in guest + kernel ==> PageAligned(r)) && 4 * |guest + kernel| <= MAX_TABLES
    {
      hide *;
      ghost var regions := guest + kernel;
      NoneYet(addr, mem[..], regions);
      var i := 0;
      while i < |guest|
        invariant i <= |guest| && Valid() && idx <= 4 * i
        invariant forall j :: 0 <= j < i ==> PageAligned(regions[j])
        invariant LastWins(addr, mem[..], regions[..i])
      {
        assert guest[i] == regions[i] && regions[i] in regions;
        InBoth(regions[i]);
        ghost var words0: seq<nat> := mem[..];
        var done := InitXlatTables(guest[i]);
        if !done {
          return false;
        }
        OneMore(addr, words0, mem[..], regions, i);
        i := i + 1;
      }
      i := 0;
      while i < |kernel|
        invariant i <= |kernel| && Valid() && idx <= 4 * (|guest| + i)
        invariant forall j :: 0 <= j < |guest| + i ==> PageAligned(regions[j])
        invariant LastWins(addr, mem[..], regions[..|guest| + i])
      {
        ghost var n := |guest| + i;
        assert kernel[i] == regions[n] && regions[n] in regions;
        InBoth(regions[n]);
        ghost var words0: seq<nat> := mem[..];
        var done := InitXlatTables(kernel[i]);
        if !done {
          return false;
        }
        OneMore(addr, words0, mem[..], regions, n);
        i := i + 1;
      }
      assert regions[..|guest| + |kernel|] == regions;
      ok := true;
    }

    /** Guest regions first, then the kernel's; later regions override earlier ones. */
    method CreatePageTables(guest: seq<Region>, kernel: seq<Region>) returns (ok: bool)
      requires Valid() && idx == 0 && forall x :: 0 <= x < VA_LIMIT ==> Translate(addr, mem[..], x) == None
      requires forall r :: r in guest + kernel ==> Mappable(r)
      modifies this, mem
      ensures ok ==> Valid()
      ensures ok ==> forall x :: 0 <= x < VA_LIMIT ==>
                       Translate(addr, mem[..], x) == LastWriter(guest + kernel, x)
      ensures ok ==> forall x: nat ::
                       x < 0x10_0000_0000 && (forall r :: r in guest + kernel ==> !(r.va <= x < r.va + r.size)) ==>
                         Translate(addr, mem[..], x) == None
      ensures ok ==> forall i: nat, x: nat :: IsLast(guest + kernel, i, x) ==>
                       var r, out := (guest + kernel)[i], Translate(addr, mem[..], x);
                       out.Some? && out.value.pa == r.pa + (x - r.va) && HasAttrs(WalkedTo(addr, mem[..], x), r.attrs)
      ensures ok ==> forall r :: r in guest + kernel ==> PageAligned(r)
      ensures ok <== (forall r :: r in guest + kernel ==> PageAligned(r)) && 4 * |guest + kernel| <= 14
    {
      hide Translate, LastWriter, HasAttrs, Mappable, Valid, PageAligned, WalkedTo;
      ok := InitAll(guest, kernel);
      if ok {
        EndOnRegions(addr, mem[..], guest + kernel);
      }
    }
  }

  ghost predicate LastWins(addr: nat, words: seq<nat>, regions: seq<Region>) {
    forall x :: 0 <= x < VA_LIMIT ==> Translate(addr, words, x) == LastWriter(regions, x)
  }

  lemma NoneYet(addr: nat, words: seq<nat>, regions: seq<Region>)
    requires forall x :: 0 <= x < VA_LIMIT ==> Translate(addr, words, x) == None
    ensures LastWins(addr, words, regions[..0])
  {
  }

  lemma InBoth(r: Region)
    requires Mappable(r)
    ensures InRange(r) && OffsetFits(r)
  {
  }

  /** What the hardware finds where no region reaches, and where one is the last to reach. */
  lemma EndOnRegions(addr: nat, words: seq<nat>, regions: seq<Region>)
    requires LastWins(addr, words, regions)
    ensures forall x: nat ::
              x < 0x10_0000_0000 && (forall r :: r in regions ==> !(r.va <= x < r.va + r.size)) ==>
                Translate(addr, words, x) == None
    ensures forall i: nat, x: nat :: IsLast(regions, i, x) ==>
              var r, out := regions[i], Translate(addr, words, x);
              out.Some? && out.value.pa == r.pa + (x - r.va) && HasAttrs(WalkedTo(addr, words, x), r.attrs)
  {
    hide Translate, WalkedTo, HasAttrs, LastWriter;
    forall x: nat | x < 0x10_0000_0000 && forall r :: r in regions ==> !(r.va <= x < r.va + r.size)
      ensures Translate(addr, words, x) == None
    {
      NoWriter(regions, x);
    }
    forall i: nat, x: nat | IsLast(regions, i, x)
      ensures var r, out := regions[i], Translate(addr, words, x);
              out.Some? && out.value.pa == r.pa + (x - r.va) && HasAttrs(WalkedTo(addr, words, x), r.attrs)
    {
      LastDecides(addr, words, regions, i, x);
    }
  }

  lemma OneMore(addr: nat, words0: seq<nat>, words: seq<nat>, regions: seq<Region>, n: nat)
    requires n < |regions| && LastWins(addr, words0, regions[..n]) && RegionMapped(addr, words0, words, regions[n])
    ensures LastWins(addr, words, regions[..n + 1])
  {
    hide Translate, RegionOutput;
    assert regions[..n + 1][..n] == regions[..n];
  }

  lemma WordsFit(addr: nat, words: seq<nat>, shape: seq<Table>)
    requires WellFormed(addr, words, shape)
    ensures LevelsOk(shape) && Used(shape) <= |words| == WORDS
  {
  }

  /** No block is unaligned that was not so before. */
  ghost predicate KeepsAligned(before: seq<nat>, sh: seq<Table>, after: seq<nat>, shape: seq<Table>) {
    && LevelsOk(sh) && LevelsOk(shape) && Used(sh) <= |before| && Used(shape) <= |after|
    && (Aligned(before, sh) ==> Aligned(after, shape))
    && forall low, high :: AlignedBut(before, sh, low, high) ==> AlignedBut(after, shape, low, high)
  }

  lemma StaysAligned(addr: nat, words: seq<nat>, words': seq<nat>, shape: seq<Table>, slot: nat, level: nat)
    requires WellFormed(addr, words, shape) && Hangs(addr, words, words', shape, slot) && |words'| == WORDS
    requires 1 <= level < 3 && slot < Used(shape) && LevelOf(shape, slot) == level
    requires TableEntriesOk(words', |shape|, level)
    ensures KeepsAligned(words, shape, words', Grown(shape, slot))
  {
    TablePointer(addr, |shape|);
    forall low, high | AlignedBut(words, shape, low, high)
      ensures AlignedBut(words', Grown(shape, slot), low, high)
    {
      HangAligned(addr, words, words', shape, slot, low, high);
    }
    if Aligned(words, shape) {
      HangAligned(addr, words, words', shape, slot, 0, 0);
    }
  }

  /** A new table under va's entry at a level leaves translations and shallower searches alone. */
  ghost predicate SameWalks(addr: nat, before: seq<nat>, after: seq<nat>, level: nat, va: nat)
    requires 1 <= level < 3
  {
    && (forall x :: 0 <= x < VA_LIMIT ==> Translate(addr, after, x) == Translate(addr, before, x))
    && (forall x, target :: 0 <= x < VA_LIMIT && 1 <= target <= level ==>
          Find(addr, after, x, target) == Find(addr, before, x, target))
    && HasTable(addr, after, va, level)
  }

  ghost predicate TableEntriesOk(words: seq<nat>, t: nat, level: nat)
    requires t < MAX_TABLES && |words| == WORDS
  {
    forall k :: 0 <= k < ENTRIES ==>
      var e := words[Slot(t, k)];
      e < WORD && (e % 4 == INVALID_DESC || if level == 2 then e % 4 == PAGE_DESC else AlignedBlock(e, 2))
  }

  lemma HangDone(addr: nat, words: seq<nat>, words': seq<nat>, shape: seq<Table>, slot: nat, level: nat, va: nat)
    requires WellFormed(addr, words, shape) && Hangs(addr, words, words', shape, slot)
    requires 1 <= level < 3 && va < VA_LIMIT && Find(addr, words, va, level) == Some(slot)
    requires words[slot] % 4 != TABLE_DESC && TableEntriesOk(words', |shape|, level)
    requires forall x :: 0 <= x < VA_LIMIT ==>
               Decode(words'[Slot(|shape|, VaIndex(x, level + 1))], level + 1, x) == Decode(words[slot], level, x)
    ensures slot < Used(shape) && WellFormed(addr, words', Grown(shape, slot))
    ensures SameWalks(addr, words, words', level, va) && LevelOf(shape, slot) == level
  {
    hide And, Or, Pow2, VaIndex, NextTable, AttrOf, Meaning;
    TranslateAfter(addr, words, words, shape, slot, level, va, va);
    HangStep(addr, words, words', shape, slot, level, va);
    FindAfterHang(addr, words, words', shape, slot, level, va);
  }

  lemma FindAfterHang(addr: nat, words: seq<nat>, words': seq<nat>, shape: seq<Table>, slot: nat, level: nat, va: nat)
    requires WellFormed(addr, words, shape) && Hangs(addr, words, words', shape, slot)
    requires 1 <= level < 3 && va < VA_LIMIT && Find(addr, words, va, level) == Some(slot)
    requires slot < Used(shape) && LevelsOk(shape) && WellFormed(addr, words', Grown(shape, slot))
    ensures forall x, target :: 0 <= x < VA_LIMIT && 1 <= target <= level ==>
              Find(addr, words', x, target) == Find(addr, words, x, target)
    ensures HasTable(addr, words', va, level)
  {
    hide And, Or, Pow2, VaIndex, NextTable, AttrOf, Meaning;
    forall x, target | 0 <= x < VA_LIMIT && 1 <= target <= level
      ensures Find(addr, words', x, target) == Find(addr, words, x, target)
    {
      FindKeptVa(addr, words, words', shape, slot, level, va, x, target);
    }
    TablePointer(addr, |shape|);
    FindNext(addr, words', Grown(shape, slot), va, level, slot);
  }

  lemma ZeroEntries(addr: nat, words: seq<nat>, words': seq<nat>, shape: seq<Table>, slot: nat, level: nat, va: nat)
    requires WellFormed(addr, words, shape) && 1 <= level < 3 && va < VA_LIMIT && |shape| < MAX_TABLES
    requires Find(addr, words, va, level) == Some(slot) && slot < |words| && words[slot] % 4 == INVALID_DESC
    requires words' == words[slot := addr + 0x1000 * |shape| + 3]
    ensures Hangs(addr, words, words', shape, slot)
    ensures TableEntriesOk(words', |shape|, level)
    ensures forall x :: 0 <= x < VA_LIMIT ==>
              Decode(words'[Slot(|shape|, VaIndex(x, level + 1))], level + 1, x) == Decode(words[slot], level, x)
  {
    hide And, Or, Pow2, VaIndex, NextTable, AttrOf, Meaning;
    TranslateAfter(addr, words, words, shape, slot, level, va, va);
  }

  lemma SplitEntries(addr: nat, words: seq<nat>, words': seq<nat>, shape: seq<Table>, slot: nat, level: nat, va: nat)
    requires WellFormed(addr, words, shape) && 1 <= level < 3 && va < VA_LIMIT && |shape| < MAX_TABLES
    requires Find(addr, words, va, level) == Some(slot) && slot < Used(shape) && |words'| == WORDS
    requires words[slot] < WORD && AlignedBlock(words[slot], level)
    requires forall k :: 0 <= k < ENTRIES ==> words'[Slot(|shape|, k)] == SplitEntry(words[slot], k, level)
    requires words'[slot] == addr + 0x1000 * |shape| + 3
    requires forall s :: 0 <= s < WORDS && s != slot && !(Used(shape) <= s < Used(shape) + ENTRIES) ==>
               words'[s] == words[s]
    ensures Hangs(addr, words, words', shape, slot)
    ensures TableEntriesOk(words', |shape|, level)
    ensures forall x :: 0 <= x < VA_LIMIT ==>
              Decode(words'[Slot(|shape|, VaIndex(x, level + 1))], level + 1, x) == Decode(words[slot], level, x)
  {
    hide And, Or, Pow2, VaIndex, NextTable, AttrOf, Meaning;
    forall k | 0 <= k < ENTRIES
      ensures var e := words'[Slot(|shape|, k)];
              e < WORD && (e % 4 == INVALID_DESC || if level == 2 then e % 4 == PAGE_DESC else AlignedBlock(e, 2))
    {
      var x := k * LevelSize(level + 1);
      Quotient(x, LevelSize(level + 1), k, 0);
      assert x / LevelSize(level + 1) % 512 == k;
      SplitPreservesDecode(words[slot], level, x);
      assert words'[Slot(|shape|, k)] == SplitEntry(words[slot], k, level);
    }
    forall x | 0 <= x < VA_LIMIT
      ensures Decode(words'[Slot(|shape|, VaIndex(x, level + 1))], level + 1, x) == Decode(words[slot], level, x)
    {
      SplitPreservesDecode(words[slot], level, x);
    }
  }

  lemma MappedFurther(addr: nat, orig: seq<nat>, before: seq<nat>, after: seq<nat>, r: Region, va: nat,
                      level: nat, pa: nat, size: nat)
    requires Cursor(r, va, pa, size, level) && size >= LevelSize(level) && va % LevelSize(level) == 0
    requires r.va + r.size <= VA_LIMIT && PageAligned(r) && MappedUpTo(addr, orig, before, r, va)
    requires BlockMapped(addr, before, after, level, va, Rounded(pa, level), r.attrs % 0x1_0000_0000)
    ensures MappedUpTo(addr, orig, after, r, va + LevelSize(level))
  {
    hide And, Or, Pow2, VaIndex, NextTable, AttrOf, Meaning, BuiltLevel, Rounded, Translate, Fits;
    AttrsTruncated(r.attrs);
    var va' := va + LevelSize(level);
    forall x | 0 <= x < VA_LIMIT
      ensures Translate(addr, after, x)
           == if r.va <= x < va' && InRegion(r, x) then Some(BuiltOutput(r, x)) else Translate(addr, orig, x)
    {
      InEntry(x, va, level);
      if va <= x < va' {
        CursorLevel(r, va, pa, size, level, x);
      }
    }
  }

  lemma MadeAfterBlock(addr: nat, words: seq<nat>, words': seq<nat>, shape: seq<Table>, r: Region,
                       va: nat, level: nat, slot: nat, at: nat, made: set<nat>)
    requires WellFormed(addr, words, shape) && WellFormed(addr, words', shape)
    requires AgreeExcept(words, words', shape, slot)
    requires 1 <= level <= 3 && 1 <= at < 3 && Find(addr, words, va, level) == Some(slot)
    requires va % LevelSize(level) == 0 && r.va <= va && va + LevelSize(level) <= r.va + r.size <= VA_LIMIT
    requires at < level ==> va % LevelSize(at) != 0 || r.va + r.size - va < LevelSize(at)
    requires TablesMade(addr, words, r, va, at, made)
    ensures TablesMade(addr, words', r, va + LevelSize(level), at, made)
  {
    hide And, Or, Pow2, VaIndex, NextTable, AttrOf, Meaning;
    var size := LevelSize(at);
    var va' := va + LevelSize(level);
    if level <= at {
      NextEntry(va, level, at);
    } else {
      SmallStep(va, level, at);
      if va' < r.va + r.size && va' / size == va / size {
        RaggedEntry(r, va, at);
        FindKeptVa(addr, words, words', shape, slot, level, va, va, at + 1);
        HasTableTogether(addr, words', shape, va, va', at);
      }
    }
  }

  /** A block at least as large as the entry size moves to an aligned later entry. */
  lemma NextEntry(va: nat, level: nat, at: nat)
    requires 1 <= level <= at <= 3 && va % LevelSize(level) == 0
    ensures (va + LevelSize(level)) % LevelSize(at) == 0
    ensures (va + LevelSize(level)) / LevelSize(at) > va / LevelSize(at)
  {
    var s := LevelSize(at);
    var f := LevelSize(level) / s;
    var q := va / LevelSize(level);
    assert LevelSize(level) == s * f && f > 0;
    assert va == s * (f * q) by { assert LevelSize(level) * q == s * f * q; }
    Quotient(va, s, f * q, 0);
    Quotient(va + LevelSize(level), s, f * q + f, 0);
  }

  /** A smaller block stays in the entry or ends on its boundary. */
  lemma SmallStep(va: nat, level: nat, at: nat)
    requires 1 <= at < level <= 3 && va % LevelSize(level) == 0
    ensures var va' := va + LevelSize(level);
            && va' / LevelSize(at) >= va / LevelSize(at)
            && (va' / LevelSize(at) == va / LevelSize(at) || va' % LevelSize(at) == 0)
  {
    var s, b := LevelSize(at), LevelSize(level);
    var q, r := va / s, va % s;
    RemainderBlock(va, s, b);
    if r + b < s {
      Quotient(va + b, s, q, r + b);
    } else {
      Quotient(va + b, s, q + 1, 0);
    }
  }

  lemma RemainderBlock(va: nat, s: nat, b: nat)
    requires (s == 0x4000_0000 && (b == 0x20_0000 || b == 0x1000)) || (s == 0x20_0000 && b == 0x1000)
    requires va % b == 0
    ensures va % s % b == 0 && va % s + b <= s
  {
    var f, q := s / b, va / b;
    assert s == f * b && va == q * b;
    BlockCount(q, f, b);
    Quotient(va, s, q / f, q % f * b);
    Quotient(q % f * b, b, q % f, 0);
  }

  lemma BlockCount(q: nat, f: nat, b: nat)
    requires f > 0
    ensures q * b == (f * b) * (q / f) + q % f * b
    ensures q % f * b + b <= f * b
  {
    var h, l := q / f, q % f;
    Recompose(q, f);
    assert (h * f + l) * b == h * f * b + l * b;
    assert h * f * b == (f * b) * h;
    MulMono(l + 1, f, b);
  }
}
