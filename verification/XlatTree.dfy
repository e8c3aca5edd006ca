/**
 The EL2 translation tables as a tree of descriptors inside a flat array of words, and
 the hardware walk over them.

 Word w < BASE_ENTRIES is entry w of s_base_xlat_table; table t of s_xlat_tables is the
 512 words from BASE_ENTRIES + 512 * t and lies at address addr + 0x1000 * t.
 */
module XlatTree {
  import opened Bits
  import opened Descriptor
  import opened Wrappers

  const BASE_ENTRIES: nat := 64
  const ENTRIES: nat := 512
  const MAX_TABLES: nat := 14
  const WORDS: nat := BASE_ENTRIES + MAX_TABLES * ENTRIES

  function Slot(t: nat, k: nat): nat { BASE_ENTRIES + ENTRIES * t + k }

  /** The word a table descriptor at some level sends va to. */
  function Child(addr: nat, desc: nat, va: nat, level: nat): int
    requires 1 <= level <= 3
  {
    BASE_ENTRIES + (NextTable(desc) - addr) / 8 + VaIndex(va, level)
  }

  datatype Walk = Leaf(slot: nat, level: nat) | Lost

  /** Hardware walk from the entry for va at the given level to the entry it ends on. */
  function WalkFrom(addr: nat, words: seq<nat>, slot: int, level: nat, va: nat): Walk
    requires 1 <= level <= 3
    decreases 3 - level
  {
    if slot < 0 || slot >= |words| then Lost
    else if level < 3 && words[slot] % 4 == 3 then
      WalkFrom(addr, words, Child(addr, words[slot], va, level + 1), level + 1, va)
    else Leaf(slot, level)
  }

  function WalkVa(addr: nat, words: seq<nat>, va: nat): Walk {
    WalkFrom(addr, words, VaIndex(va, BASE_LEVEL), BASE_LEVEL, va)
  }

  /** The translation of va, if it has one. */
  function Translate(addr: nat, words: seq<nat>, va: nat): Option<Output> {
    match WalkVa(addr, words, va)
    case Lost => None
    case Leaf(slot, level) =>
      if 1 <= level <= 3 && slot < |words| then Decode(words[slot], level, va) else None
  }

  /** The descriptor that the walk of va ends on; 0 is invalid. */
  function WalkedTo(addr: nat, words: seq<nat>, va: nat): nat {
    match WalkVa(addr, words, va)
    case Lost => 0
    case Leaf(slot, _) => if slot < |words| then words[slot] else 0
  }

  /** The entry for va at the target level, if the tables above it exist. */
  function FindFrom(addr: nat, words: seq<nat>, slot: int, level: nat, va: nat, target: nat): Option<nat>
    requires 1 <= level <= target <= 3
    decreases 3 - level
  {
    if slot < 0 || slot >= |words| then None
    else if level == target then Some(slot)
    else if words[slot] % 4 != TABLE_DESC then None
    else FindFrom(addr, words, Child(addr, words[slot], va, level + 1), level + 1, va, target)
  }

  function Find(addr: nat, words: seq<nat>, va: nat, target: nat): Option<nat>
    requires 1 <= target <= 3
  {
    FindFrom(addr, words, VaIndex(va, BASE_LEVEL), BASE_LEVEL, va, target)
  }

  // The shape of the tree: for each table handed out, its level, the first address it
  // covers and the one entry allowed to point at it.

  datatype Table = Table(level: nat, va: nat, parent: nat)

  ghost function Used(shape: seq<Table>): nat { BASE_ENTRIES + ENTRIES * |shape| }

  ghost function TableOf(slot: nat): int { (slot - BASE_ENTRIES) / ENTRIES }

  ghost function LevelOf(shape: seq<Table>, slot: nat): nat
    requires slot < Used(shape)
  {
    if slot < BASE_ENTRIES then 1 else shape[TableOf(slot)].level
  }

  ghost predicate LevelsOk(shape: seq<Table>) {
    forall t :: 0 <= t < |shape| ==> 2 <= shape[t].level <= 3
  }

  ghost function VaOf(shape: seq<Table>, slot: nat): nat
    requires slot < Used(shape) && LevelsOk(shape)
  {
    if slot < BASE_ENTRIES then slot * 0x4000_0000
    else shape[TableOf(slot)].va + (slot - BASE_ENTRIES) % ENTRIES * LevelSize(shape[TableOf(slot)].level)
  }

  ghost predicate PointsToChild(addr: nat, desc: nat, shape: seq<Table>, slot: nat)
    requires slot < Used(shape) && LevelsOk(shape)
  {
    exists t :: 0 <= t < |shape| && NextTable(desc) == addr + 0x1000 * t
                && shape[t] == Table(LevelOf(shape, slot) + 1, VaOf(shape, slot), slot)
  }

  /** A well-formed entry: invalid, a block, a page, or a pointer to its own child. */
  ghost predicate SlotOk(addr: nat, words: seq<nat>, shape: seq<Table>, slot: nat)
    requires slot < Used(shape) && slot < |words| && LevelsOk(shape)
  {
    var d, level := words[slot], LevelOf(shape, slot);
    && d < WORD
    && (|| d % 4 == INVALID_DESC
        || (level < 3 && d % 4 == BLOCK_DESC)
        || (level == 3 && d % 4 == PAGE_DESC)
        || (level < 3 && d % 4 == TABLE_DESC && PointsToChild(addr, d, shape, slot)))
  }

  ghost predicate WellFormed(addr: nat, words: seq<nat>, shape: seq<Table>) {
    && addr % 0x1000 == 0 && addr + 0x1000 * MAX_TABLES <= ADDR_LIMIT
    && |words| == WORDS && |shape| <= MAX_TABLES && LevelsOk(shape)
    && (forall t :: 0 <= t < |shape| ==> shape[t].va % LevelSize(shape[t].level - 1) == 0)
    && (forall s :: 0 <= s < Used(shape) ==> SlotOk(addr, words, shape, s))
    && (forall s :: Used(shape) <= s < WORDS ==> words[s] == 0)
  }

  /** An entry that is a block has an address aligned to it. */
  ghost predicate AlignedAt(words: seq<nat>, shape: seq<Table>, slot: nat)
    requires slot < Used(shape) && slot < |words| && LevelsOk(shape)
  {
    LevelOf(shape, slot) < 3 && words[slot] % 4 == BLOCK_DESC ==> AlignedBlock(words[slot], LevelOf(shape, slot))
  }

  /** All blocks are aligned, but for those that lie in a range of addresses. */
  ghost predicate AlignedBut(words: seq<nat>, shape: seq<Table>, low: nat, high: nat)
    requires Used(shape) <= |words| && LevelsOk(shape)
  {
    forall s :: 0 <= s < Used(shape) && !AlignedAt(words, shape, s) ==>
      low <= VaOf(shape, s) && VaOf(shape, s) + LevelSize(LevelOf(shape, s)) <= high
  }

  ghost predicate Aligned(words: seq<nat>, shape: seq<Table>)
    requires Used(shape) <= |words| && LevelsOk(shape)
  {
    forall s :: 0 <= s < Used(shape) ==> AlignedAt(words, shape, s)
  }

  /** slot is the entry for va at its level. */
  ghost predicate Covers(shape: seq<Table>, slot: nat, va: nat) {
    && slot < Used(shape) && LevelsOk(shape)
    && VaOf(shape, slot) == va - va % LevelSize(LevelOf(shape, slot))
  }

  lemma BaseCovers(addr: nat, words: seq<nat>, shape: seq<Table>, va: nat)
    requires WellFormed(addr, words, shape) && va < VA_LIMIT
    ensures var s := VaIndex(va, BASE_LEVEL); s < BASE_ENTRIES && LevelOf(shape, s) == 1 && Covers(shape, s, va)
  {
    var q := va / 0x4000_0000;
    assert va == q * 0x4000_0000 + va % 0x4000_0000;
    assert q < BASE_ENTRIES && VaIndex(va, BASE_LEVEL) == q;
  }

  /** A table entry leads to the entry for the same address one level down. */
  lemma ChildCovers(addr: nat, words: seq<nat>, shape: seq<Table>, slot: nat, va: nat)
    requires WellFormed(addr, words, shape) && Covers(shape, slot, va)
    requires words[slot] % 4 == TABLE_DESC && LevelOf(shape, slot) < 3
    ensures var level := LevelOf(shape, slot) + 1;
            var c := Child(addr, words[slot], va, level);
            && BASE_ENTRIES <= c < Used(shape) && c < |words|
            && LevelOf(shape, c) == level && Covers(shape, c, va)
  {
    hide And, Or, Pow2, VaIndex, NextTable, AttrOf, Meaning;
    assert SlotOk(addr, words, shape, slot);
    assert PointsToChild(addr, words[slot], shape, slot);
    var t :| 0 <= t < |shape| && NextTable(words[slot]) == addr + 0x1000 * t
             && shape[t] == Table(LevelOf(shape, slot) + 1, VaOf(shape, slot), slot);
    var level := LevelOf(shape, slot) + 1;
    var c, k := Child(addr, words[slot], va, level), VaIndex(va, level);
    assert c == Slot(t, k);
    assert TableOf(c) == t && (c - BASE_ENTRIES) % ENTRIES == k;
    if level == 2 {
      SubOffset(va, 0x20_0000);
    } else {
      SubOffset(va, 0x1000);
    }
  }

  /** Two word arrays that agree on every entry in use except, perhaps, one. */
  ghost predicate AgreeExcept(words: seq<nat>, words': seq<nat>, shape: seq<Table>, slot: nat) {
    |words| == |words'| && forall s :: 0 <= s < Used(shape) && s < |words| && s != slot ==> words'[s] == words[s]
  }

  /** Rewriting one entry does not touch the walk of an address outside it. */
  lemma {:induction false} WalkOutside(addr: nat, words: seq<nat>, words': seq<nat>, shape: seq<Table>,
                                       slot: nat, from: nat, x: nat)
    requires WellFormed(addr, words, shape) && AgreeExcept(words, words', shape, slot)
    requires slot < Used(shape) && !Covers(shape, slot, x)
    requires Covers(shape, from, x)
    ensures var level := LevelOf(shape, from);
            var w := WalkFrom(addr, words, from, level, x);
            && WalkFrom(addr, words', from, level, x) == w
            && w.Leaf? && w.slot < |words| && words'[w.slot] == words[w.slot] && 1 <= w.level <= 3
    decreases 3 - LevelOf(shape, from)
  {
    hide And, Or, Pow2, VaIndex, NextTable, AttrOf, Meaning;
    var level := LevelOf(shape, from);
    if level < 3 && words[from] % 4 == TABLE_DESC {
      ChildCovers(addr, words, shape, from, x);
      WalkOutside(addr, words, words', shape, slot, Child(addr, words[from], x, level + 1), x);
    }
  }

  /** Every address of an entry's range reaches that entry. */
  lemma {:induction false} WalkInside(addr: nat, words: seq<nat>, words': seq<nat>, shape: seq<Table>,
                                      slot: nat, from: nat, va: nat, x: nat)
    requires WellFormed(addr, words, shape) && AgreeExcept(words, words', shape, slot)
    requires Covers(shape, from, va) && slot < Used(shape) && LevelOf(shape, from) <= LevelOf(shape, slot)
    requires FindFrom(addr, words, from, LevelOf(shape, from), va, LevelOf(shape, slot)) == Some(slot)
    requires x / LevelSize(LevelOf(shape, slot)) == va / LevelSize(LevelOf(shape, slot))
    ensures WalkFrom(addr, words', from, LevelOf(shape, from), x)
         == WalkFrom(addr, words', slot, LevelOf(shape, slot), x)
    decreases 3 - LevelOf(shape, from)
  {
    hide And, Or, Pow2, VaIndex, NextTable, AttrOf, Meaning, SlotOk, VaOf, LevelSize;
    var level := LevelOf(shape, from);
    if level < LevelOf(shape, slot) {
      assert from != slot;
      ChildCovers(addr, words, shape, from, va);
      SameIndex(x, va, LevelOf(shape, slot), level + 1);
      WalkInside(addr, words, words', shape, slot, Child(addr, words[from], va, level + 1), va, x);
    }
  }

  lemma SameIndex(x: nat, va: nat, low: nat, level: nat)
    requires 1 <= level <= low <= 3 && x / LevelSize(low) == va / LevelSize(low)
    ensures x / LevelSize(level) == va / LevelSize(level)
  {
    var f := if low == level then 1 else if low == level + 1 then 512 else 0x4_0000;
    Nested(x, LevelSize(low), f);
    Nested(va, LevelSize(low), f);
  }

  lemma Nested(x: nat, size: nat, f: nat)
    requires size > 0 && f > 0
    ensures x / (size * f) == x / size / f
  {
    var q, r := x / size, x % size;
    Recompose(x, size);
    Recompose(q, f);
    NestedParts(x, size, f, q / f, q % f, r);
  }

  lemma NestedParts(x: nat, size: nat, f: nat, a: nat, b: nat, r: nat)
    requires x == (a * f + b) * size + r && b < f && r < size
    ensures x / (size * f) == a
  {
    assert (a * f + b) * size == a * f * size + b * size;
    assert a * f * size == (size * f) * a;
    MulMono(b + 1, f, size);
    Quotient(x, size * f, a, b * size + r);
  }

  lemma MulMono(a: nat, b: nat, c: nat)
    requires a <= b
    ensures a * c <= b * c
  {
  }

  /** The entry found for va at a level is that level's entry for va. */
  lemma {:induction false} FindCovers(addr: nat, words: seq<nat>, shape: seq<Table>, from: nat, va: nat, target: nat)
    requires WellFormed(addr, words, shape) && Covers(shape, from, va)
    requires LevelOf(shape, from) <= target <= 3
    requires FindFrom(addr, words, from, LevelOf(shape, from), va, target).Some?
    ensures var s := FindFrom(addr, words, from, LevelOf(shape, from), va, target).value;
            s < Used(shape) && LevelOf(shape, s) == target && Covers(shape, s, va)
    decreases 3 - LevelOf(shape, from)
  {
    hide And, Or, Pow2, VaIndex, NextTable, AttrOf, Meaning;
    var level := LevelOf(shape, from);
    if level < target {
      ChildCovers(addr, words, shape, from, va);
      FindCovers(addr, words, shape, Child(addr, words[from], va, level + 1), va, target);
    }
  }

  /** Going one level down from a found table entry. */
  lemma {:induction false} FindDeeper(addr: nat, words: seq<nat>, shape: seq<Table>, from: nat, va: nat, target: nat)
    requires WellFormed(addr, words, shape) && Covers(shape, from, va)
    requires LevelOf(shape, from) <= target < 3
    requires var s := FindFrom(addr, words, from, LevelOf(shape, from), va, target);
             s.Some? && s.value < |words| && words[s.value] % 4 == TABLE_DESC
    ensures FindFrom(addr, words, from, LevelOf(shape, from), va, target + 1).Some?
    decreases 3 - LevelOf(shape, from)
  {
    hide And, Or, Pow2, VaIndex, NextTable, AttrOf, Meaning;
    var level := LevelOf(shape, from);
    if level < target {
      ChildCovers(addr, words, shape, from, va);
      FindDeeper(addr, words, shape, Child(addr, words[from], va, level + 1), va, target);
    } else {
      FindCovers(addr, words, shape, from, va, target);
      ChildCovers(addr, words, shape, from, va);
    }
  }

  /** The two cases above, for the whole translation of an address. */
  lemma TranslateAfter(addr: nat, words: seq<nat>, words': seq<nat>, shape: seq<Table>,
                       slot: nat, level: nat, va: nat, x: nat)
    requires WellFormed(addr, words, shape) && AgreeExcept(words, words', shape, slot)
    requires 1 <= level <= 3 && va < VA_LIMIT && x < VA_LIMIT
    requires Find(addr, words, va, level) == Some(slot)
    ensures slot < Used(shape) && LevelOf(shape, slot) == level && Covers(shape, slot, va)
    ensures x / LevelSize(level) != va / LevelSize(level) ==>
              Translate(addr, words', x) == Translate(addr, words, x)
    ensures x / LevelSize(level) == va / LevelSize(level) ==>
              && WalkVa(addr, words', x) == WalkFrom(addr, words', slot, level, x)
              && WalkVa(addr, words, x) == WalkFrom(addr, words, slot, level, x)
  {
    hide And, Or, Pow2, VaIndex, NextTable, AttrOf, Meaning;
    BaseCovers(addr, words, shape, va);
    BaseCovers(addr, words, shape, x);
    FindCovers(addr, words, shape, VaIndex(va, BASE_LEVEL), va, level);
    if x / LevelSize(level) == va / LevelSize(level) {
      SameIndex(x, va, level, 1);
      WalkInside(addr, words, words', shape, slot, VaIndex(va, BASE_LEVEL), va, x);
      WalkInside(addr, words, words, shape, slot, VaIndex(va, BASE_LEVEL), va, x);
    } else {
      WalkOutside(addr, words, words', shape, slot, VaIndex(x, BASE_LEVEL), x);
    }
  }

  // The three changes the table builder makes.

  ghost predicate BlockMapped(addr: nat, before: seq<nat>, after: seq<nat>, level: nat, va: nat, pa: nat, attrs: nat)
    requires 1 <= level <= 3
  {
    forall x :: 0 <= x < VA_LIMIT ==>
      Translate(addr, after, x)
      == if x / LevelSize(level) == va / LevelSize(level)
         then Some(Output(pa + x % LevelSize(level), Meaning(attrs)))
         else Translate(addr, before, x)
  }

  /** The address an entry of the level holds when pa is written to it: the bits below its size do not count. */
  ghost function Rounded(pa: nat, level: nat): nat
    requires 1 <= level <= 3
  {
    pa / LevelSize(level) * LevelSize(level)
  }

  /** Writing a block or page descriptor maps exactly the entry's range, to pa rounded down to the entry's size. */
  lemma BlockStep(addr: nat, words: seq<nat>, shape: seq<Table>, slot: nat, level: nat, va: nat,
                  desc: nat, pa: nat, attrs: nat)
    requires WellFormed(addr, words, shape) && 1 <= level <= 3 && va < VA_LIMIT
    requires Find(addr, words, va, level) == Some(slot)
    requires EncodesBlock(desc, pa, attrs, level)
    ensures slot < |words| && WellFormed(addr, words[slot := desc], shape)
    ensures BlockMapped(addr, words, words[slot := desc], level, va, Rounded(pa, level), attrs)
  {
    hide And, Or, Pow2, VaIndex, NextTable, AttrOf, Meaning, Rounded;
    TranslateAfter(addr, words, words, shape, slot, level, va, va);
    var words' := words[slot := desc];
    forall s | 0 <= s < Used(shape) ensures SlotOk(addr, words', shape, s) {
      assert SlotOk(addr, words, shape, s);
    }
    forall x | 0 <= x < VA_LIMIT
      ensures Translate(addr, words', x)
           == if x / LevelSize(level) == va / LevelSize(level)
              then Some(Output(Rounded(pa, level) + x % LevelSize(level), Meaning(attrs)))
              else Translate(addr, words, x)
    {
      BlockStepAt(addr, words, shape, slot, level, va, desc, pa, attrs, x);
    }
  }

  lemma BlockStepAt(addr: nat, words: seq<nat>, shape: seq<Table>, slot: nat, level: nat, va: nat,
                    desc: nat, pa: nat, attrs: nat, x: nat)
    requires WellFormed(addr, words, shape) && 1 <= level <= 3 && va < VA_LIMIT && x < VA_LIMIT
    requires Find(addr, words, va, level) == Some(slot) && slot < |words|
    requires EncodesBlock(desc, pa, attrs, level)
    ensures Translate(addr, words[slot := desc], x)
         == if x / LevelSize(level) == va / LevelSize(level)
            then Some(Output(Rounded(pa, level) + x % LevelSize(level), Meaning(attrs)))
            else Translate(addr, words, x)
  {
    hide And, Or, Pow2, VaIndex, NextTable, AttrOf, Meaning, Rounded;
    TranslateAfter(addr, words, words[slot := desc], shape, slot, level, va, x);
    if x / LevelSize(level) == va / LevelSize(level) {
      DecodeBlock(desc, pa, attrs, level, x);
    }
  }

  lemma DecodeBlock(desc: nat, pa: nat, attrs: nat, level: nat, x: nat)
    requires 1 <= level <= 3 && EncodesBlock(desc, pa, attrs, level)
    ensures Decode(desc, level, x) == Some(Output(Rounded(pa, level) + x % LevelSize(level), Meaning(attrs)))
    ensures level < 3 && pa % LevelSize(level) == 0 ==> AlignedBlock(desc, level)
  {
    hide AttrOf, Meaning;
    var m, size := desc % ADDR_LIMIT, LevelSize(level);
    var k := if level == 1 then 0x4_0000 else if level == 2 then 0x200 else 1;
    var frame := m / 0x1000;
    Quotient(m, size, frame / k, frame % k * 0x1000 + m % 0x1000);
    Quotient(pa, size, frame / k, frame % k * 0x1000);
  }

  /** Writing an entry leaves the others as they were. */
  lemma AlignedAfter(words: seq<nat>, shape: seq<Table>, slot: nat, desc: nat, low: nat, va: nat, level: nat)
    requires Used(shape) <= |words| && LevelsOk(shape) && AlignedBut(words, shape, low, va) && low <= va
    requires Covers(shape, slot, va) && LevelOf(shape, slot) == level && va % LevelSize(level) == 0
    ensures AlignedBut(words[slot := desc], shape, low, va + LevelSize(level))
    ensures Aligned(words, shape) && (level < 3 && desc % 4 == BLOCK_DESC ==> AlignedBlock(desc, level)) ==>
              Aligned(words[slot := desc], shape)
  {
    hide AlignedBlock;
    var words' := words[slot := desc];
    forall s | 0 <= s < Used(shape) && s != slot ensures AlignedAt(words', shape, s) == AlignedAt(words, shape, s) {
    }
  }

  /** Table |shape| hung under a leaf entry, its words given. */
  ghost predicate Hangs(addr: nat, words: seq<nat>, words': seq<nat>, shape: seq<Table>, slot: nat) {
    && AgreeExcept(words, words', shape, slot)
    && |shape| < MAX_TABLES && slot < |words| == WORDS
    && words'[slot] == addr + 0x1000 * |shape| + 3
    && forall s :: Used(shape) + ENTRIES <= s < WORDS ==> words'[s] == 0
  }

  ghost function Grown(shape: seq<Table>, slot: nat): seq<Table>
    requires slot < Used(shape) && LevelsOk(shape)
  {
    shape + [Table(LevelOf(shape, slot) + 1, VaOf(shape, slot), slot)]
  }

  lemma HangWellFormed(addr: nat, words: seq<nat>, words': seq<nat>, shape: seq<Table>, slot: nat, level: nat, va: nat)
    requires WellFormed(addr, words, shape) && Hangs(addr, words, words', shape, slot)
    requires slot < Used(shape) && Covers(shape, slot, va) && LevelOf(shape, slot) == level < 3
    requires forall k :: 0 <= k < ENTRIES ==>
               var e := words'[Slot(|shape|, k)];
               e < WORD && (e % 4 == INVALID_DESC || if level == 2 then e % 4 == PAGE_DESC else AlignedBlock(e, 2))
    ensures WellFormed(addr, words', Grown(shape, slot))
  {
    hide And, Or, Pow2, VaIndex, NextTable, AttrOf, Meaning;
    var shape' := Grown(shape, slot);
    var t := |shape|;
    assert shape'[t] == Table(level + 1, VaOf(shape, slot), slot);
    forall s | 0 <= s < Used(shape') ensures SlotOk(addr, words', shape', s) {
      if s == slot {
        TablePointer(addr, t);
        assert PointsToChild(addr, words'[s], shape', s);
      } else if s < Used(shape) {
        SlotStaysOk(addr, words, words', shape, slot, s);
      } else {
        var k := s - Used(shape);
        assert s == Slot(t, k) && TableOf(s) == t;
      }
    }
    SubRange(VaOf(shape, slot), va, level);
  }

  lemma SubRange(base: nat, va: nat, level: nat)
    requires 1 <= level <= 3 && base == va - va % LevelSize(level)
    ensures base % LevelSize(level) == 0
  {
  }

  lemma SlotStaysOk(addr: nat, words: seq<nat>, words': seq<nat>, shape: seq<Table>, slot: nat, s: nat)
    requires WellFormed(addr, words, shape) && |words'| == WORDS
    requires slot < Used(shape) && s < Used(shape) && words'[s] == words[s]
    requires LevelOf(shape, slot) < 3
    ensures LevelsOk(Grown(shape, slot)) && SlotOk(addr, words', Grown(shape, slot), s)
  {
    hide And, Or, Pow2, VaIndex, NextTable, AttrOf, Meaning;
    var shape' := Grown(shape, slot);
    assert SlotOk(addr, words, shape, s);
    assert LevelOf(shape', s) == LevelOf(shape, s) && VaOf(shape', s) == VaOf(shape, s);
    if words[s] % 4 == TABLE_DESC && LevelOf(shape, s) < 3 {
      var u :| 0 <= u < |shape| && NextTable(words[s]) == addr + 0x1000 * u
               && shape[u] == Table(LevelOf(shape, s) + 1, VaOf(shape, s), s);
      assert shape'[u] == shape[u];
      assert PointsToChild(addr, words'[s], shape', s);
    }
  }

  lemma TablePointer(addr: nat, t: nat)
    requires addr % 0x1000 == 0 && addr + 0x1000 * MAX_TABLES <= ADDR_LIMIT && t < MAX_TABLES
    ensures var d := addr + 0x1000 * t + 3; d < WORD && d % 4 == TABLE_DESC && NextTable(d) == addr + 0x1000 * t
  {
    DescParts(addr + 0x1000 * t + 3, 0, addr / 0x1000 + t, 3);
  }

  /**
   Hanging a new table changes no translation, when each of its entries decodes as the
   entry it replaces did.
   */
  lemma HangStep(addr: nat, words: seq<nat>, words': seq<nat>, shape: seq<Table>, slot: nat, level: nat, va: nat)
    requires WellFormed(addr, words, shape) && Hangs(addr, words, words', shape, slot)
    requires 1 <= level < 3 && va < VA_LIMIT && Find(addr, words, va, level) == Some(slot)
    requires words[slot] % 4 != TABLE_DESC
    requires forall k :: 0 <= k < ENTRIES ==>
               var e := words'[Slot(|shape|, k)];
               e < WORD && (e % 4 == INVALID_DESC || if level == 2 then e % 4 == PAGE_DESC else AlignedBlock(e, 2))
    requires forall x :: 0 <= x < VA_LIMIT ==>
               Decode(words'[Slot(|shape|, VaIndex(x, level + 1))], level + 1, x) == Decode(words[slot], level, x)
    ensures slot < Used(shape) && WellFormed(addr, words', Grown(shape, slot))
    ensures forall x :: 0 <= x < VA_LIMIT ==> Translate(addr, words', x) == Translate(addr, words, x)
  {
    hide And, Or, Pow2, VaIndex, NextTable, AttrOf, Meaning;
    TranslateAfter(addr, words, words, shape, slot, level, va, va);
    HangWellFormed(addr, words, words', shape, slot, level, va);
    TablePointer(addr, |shape|);
    forall x | 0 <= x < VA_LIMIT ensures Translate(addr, words', x) == Translate(addr, words, x) {
      TranslateAfter(addr, words, words', shape, slot, level, va, x);
      if x / LevelSize(level) == va / LevelSize(level) {
        var k := VaIndex(x, level + 1);
        assert Child(addr, words'[slot], x, level + 1) == Slot(|shape|, k);
        var e := words'[Slot(|shape|, k)];
        assert WalkFrom(addr, words', slot, level, x) == Leaf(Slot(|shape|, k), level + 1);
        assert WalkFrom(addr, words, slot, level, x) == Leaf(slot, level);
      }
    }
  }

  /** A new table of invalid entries, pages or aligned blocks leaves no more blocks unaligned. */
  lemma HangAligned(addr: nat, words: seq<nat>, words': seq<nat>, shape: seq<Table>, slot: nat, low: nat, high: nat)
    requires WellFormed(addr, words, shape) && Hangs(addr, words, words', shape, slot) && slot < Used(shape)
    requires LevelOf(shape, slot) < 3 && words'[slot] % 4 == TABLE_DESC && |words'| == WORDS
    requires forall k :: 0 <= k < ENTRIES ==>
               var e := words'[Slot(|shape|, k)];
               e % 4 == INVALID_DESC || if LevelOf(shape, slot) == 2 then e % 4 == PAGE_DESC else AlignedBlock(e, 2)
    requires AlignedBut(words, shape, low, high)
    ensures LevelsOk(Grown(shape, slot)) && Used(Grown(shape, slot)) <= WORDS
    ensures AlignedBut(words', Grown(shape, slot), low, high)
    ensures Aligned(words, shape) ==> Aligned(words', Grown(shape, slot))
  {
    hide AlignedBlock, SlotOk;
    var shape' := Grown(shape, slot);
    forall s | 0 <= s < Used(shape')
      ensures AlignedAt(words', shape', s) || (s < Used(shape) && !AlignedAt(words, shape, s))
      ensures s < Used(shape) ==> LevelOf(shape', s) == LevelOf(shape, s) && VaOf(shape', s) == VaOf(shape, s)
    {
      if s >= Used(shape) {
        assert s == Slot(|shape|, s - Used(shape)) && TableOf(s) == |shape|;
      }
    }
  }

  /** An all-zero memory is well formed and translates nothing. */
  lemma EmptyTables(addr: nat, words: seq<nat>)
    requires addr % 0x1000 == 0 && addr + 0x1000 * MAX_TABLES <= ADDR_LIMIT
    requires |words| == WORDS && forall s :: 0 <= s < WORDS ==> words[s] == 0
    ensures WellFormed(addr, words, []) && Aligned(words, [])
    ensures forall x :: 0 <= x < VA_LIMIT ==> Translate(addr, words, x) == None
  {
    forall s | 0 <= s < Used([]) ensures SlotOk(addr, words, [], s) {
    }
  }
}
