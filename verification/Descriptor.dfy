/**
 The 64-bit translation-table descriptors of VMSAv8-64 with 4 KiB pages (section D8.3
 of the Arm Architecture Reference Manual for A-profile, DDI 0487), as the EL2 table
 builder writes them and as the hardware reads them back.
 */
module Descriptor {
  import opened Bits
  import opened Wrappers

  const PAGE_SIZE: nat := 0x1000
  const VA_LIMIT: nat := 0x10_0000_0000      // CONFIG_MMU_VA_BITS = 36
  const ADDR_LIMIT: nat := 0x1_0000_0000_0000
  const TABLE_LEVEL_MAX: nat := 3
  const BASE_LEVEL: nat := 1

  const DESC_TYPE_MASK: nat := 3
  const INVALID_DESC: nat := 0
  const BLOCK_DESC: nat := 1
  const TABLE_DESC: nat := 3
  const PAGE_DESC: nat := 3
  const DESC_ADDR_MASK: nat := 0x0000_ffff_ffff_f000

  const ATTR_NON_SECURE: nat := 0x10
  const ATTR_RW: nat := 0x8
  const ATTR_EXECUTE_NEVER: nat := 0x20

  /** Bytes covered by one entry of a table of the given level. */
  function LevelSize(level: nat): nat
    requires 1 <= level <= 3
  {
    if level == 1 then 0x4000_0000 else if level == 2 then 0x20_0000 else 0x1000
  }

  /** The attribute fields that hardware takes from a block or page descriptor. */
  datatype Attr = Attr(memType: nat, nonSecure: bool, readOnly: bool, share: nat,
                       accessed: bool, privExecNever: bool, execNever: bool)

  /** One translation: output address and attributes. */
  datatype Output = Output(pa: nat, attr: Attr)

  function FieldsOf(low: nat, high: nat): Attr {
    Attr(low % 8, low / 8 % 2 == 1, low / 32 % 2 == 1, low / 64 % 4,
         low / 256 % 2 == 1, high / 32 % 2 == 1, high / 64 % 2 == 1)
  }

  /** Descriptor bits 11:2 and 63:48 carry the attributes. */
  function AttrOf(desc: nat): Attr {
    FieldsOf(desc % 0x1000 / 4, desc / 0x1_0000_0000_0000)
  }

  /** What hardware makes of the descriptor it ends its walk on. */
  function Decode(desc: nat, level: nat, va: nat): Option<Output>
    requires 1 <= level <= 3
  {
    if desc % 4 == (if level == 3 then 3 else 1) then
      Some(Output(desc % ADDR_LIMIT / LevelSize(level) * LevelSize(level) + va % LevelSize(level), AttrOf(desc)))
    else
      None
  }

  /** What a region's attribute word asks for: MAIR index in bits 2:0, RW, NS, XN above. */
  function Meaning(attrs: nat): Attr {
    var memType := attrs % 8;
    var device := memType <= 2;
    var normal := 3 <= memType <= 5;
    Attr(memType,
         attrs / 16 % 2 == 1,
         attrs / 8 % 2 == 0,
         if memType == 4 then 3 else if device || normal then 2 else 0,
         true,
         device || (normal && attrs / 32 % 2 == 1),
         device)
  }

  /** The same in the bits of a descriptor: MAIR index, AF, NS, read-only, shareability, PXN and UXN. */
  ghost predicate HasAttrs(desc: nat, attrs: nat) {
    && desc / 4 % 8 == attrs % 8 && desc / 0x400 % 2 == 1
    && (desc / 0x20 % 2 == 1 <==> attrs / 0x10 % 2 == 1)
    && (desc / 0x80 % 2 == 0 <==> attrs / 8 % 2 == 1)
    && desc / 0x100 % 4 == (if attrs % 8 == 4 then 3 else if attrs % 8 <= 5 then 2 else 0)
    && (desc / 0x20_0000_0000_0000 % 2 == 1 <==>
        attrs % 8 <= 2 || (3 <= attrs % 8 <= 5 && attrs / 0x20 % 2 == 1))
    && (desc / 0x40_0000_0000_0000 % 2 == 1 <==> attrs % 8 <= 2)
  }

  /** A descriptor that maps a whole entry of the level to pa with the attributes asked for. */
  ghost predicate EncodesBlock(desc: nat, pa: nat, attrs: nat, level: nat) {
    && desc < WORD
    && desc % 4 == (if level == 3 then PAGE_DESC else BLOCK_DESC)
    && desc % ADDR_LIMIT / 0x1000 * 0x1000 == pa
    && AttrOf(desc) == Meaning(attrs)
  }

  function DescType(desc: nat): (r: nat)
    ensures r == desc % 4
  {
    AndConst(desc, 3, 1, 4, 0, 2);
    And(desc, DESC_TYPE_MASK)
  }

  /** The table address held by a table descriptor. */
  function NextTable(desc: nat): (r: nat)
    ensures r == desc % ADDR_LIMIT / 0x1000 * 0x1000
  {
    Powers();
    AndConst(desc, DESC_ADDR_MASK, 0x1000, VA_LIMIT, 12, 36);
    MaskedAddress(desc);
    And(desc, DESC_ADDR_MASK)
  }

  lemma MaskedAddress(desc: nat)
    ensures desc / 0x1000 % VA_LIMIT == desc % ADDR_LIMIT / 0x1000
  {
    var h, m := desc / ADDR_LIMIT, desc % ADDR_LIMIT;
    assert desc == h * VA_LIMIT * 0x1000 + m;
    assert desc / 0x1000 == h * VA_LIMIT + m / 0x1000;
  }

  function TableDesc(table: nat): (r: nat)
    requires table % 0x1000 == 0 && table < ADDR_LIMIT
    ensures r == table + 3
  {
    Powers();
    OrConst(3, table / 0x1000, 0x1000, VA_LIMIT, 12, 36);
    Or(TABLE_DESC, table)
  }

  /** Index of va in a table of the level. */
  function VaIndex(va: nat, level: nat): (r: nat)
    requires 1 <= level <= 3
    ensures r == va / LevelSize(level) % 512
  {
    AndConst(va / LevelSize(level), 511, 1, 512, 0, 9);
    And(va / LevelSize(level), 511)
  }

  /** The alignment test va & (size - 1). */
  function Offset(va: nat, level: nat): (r: nat)
    requires 1 <= level <= 3
    ensures r == va % LevelSize(level)
  {
    Powers();
    AndConst(va, LevelSize(level) - 1, 1, LevelSize(level), 0,
             if level == 1 then 30 else if level == 2 then 21 else 12);
    And(va, LevelSize(level) - 1)
  }

  lemma AttrBits(attrs: nat)
    ensures And(attrs, 7) == attrs % 8
    ensures And(attrs, ATTR_RW) != 0 <==> attrs / 8 % 2 == 1
    ensures And(attrs, ATTR_NON_SECURE) != 0 <==> attrs / 16 % 2 == 1
    ensures And(attrs, ATTR_EXECUTE_NEVER) != 0 <==> attrs / 32 % 2 == 1
  {
    AndConst(attrs, 7, 1, 8, 0, 3);
    AndConst(attrs, 8, 8, 2, 3, 1);
    AndConst(attrs, 16, 16, 2, 4, 1);
    AndConst(attrs, 32, 32, 2, 5, 1);
  }

  // The descriptor word SetPteBlockDesc stores, put together in the order of the source:
  // type, security, access permission, access flag and memory type first.

  function Digit(b: bool): nat {
    if b then 1 else 0
  }

  function LowBits(attrs: nat, level: nat): nat {
    (if level == 3 then PAGE_DESC else BLOCK_DESC) + Digit(attrs / 16 % 2 == 1) * 0x20
    + Digit(attrs / 8 % 2 == 0) * 0x80 + 0x400 + attrs % 8 * 4
  }

  method BlockDescLow(pa: nat, attrs: nat, level: nat) returns (desc: nat)
    requires pa % 0x1000 == 0 && pa < ADDR_LIMIT && 1 <= level <= 3
    ensures desc == pa + LowBits(attrs, level)
  {
    hide Or, And, Pow2;
    SmallPowers();
    AttrBits(attrs);
    desc := pa;
    var kind := if level == 3 then PAGE_DESC else BLOCK_DESC;
    desc := OrLow(desc, pa, 0, kind, kind, 1, 4, 0, 2);
    var ns := Digit(And(attrs, ATTR_NON_SECURE) != 0);
    desc := OrLow(desc, pa, kind, ns * 0x20, ns, 0x20, 2, 5, 1);
    var ap := Digit(And(attrs, ATTR_RW) == 0);
    desc := OrLow(desc, pa, kind + ns * 0x20, ap * 0x80, ap, 0x80, 2, 7, 1);
    desc := OrLow(desc, pa, kind + ns * 0x20 + ap * 0x80, 0x400, 1, 0x400, 2, 10, 1);
    DigitsOfLow(kind, 0, ns, ap, 0, 1);
    var memType := And(attrs, 7);
    desc := OrLow(desc, pa, kind + ns * 0x20 + ap * 0x80 + 0x400, memType * 4, memType, 4, 8, 2, 3);
  }

  /** desc |= v, where v puts c into clear digits below bit 12 of pa + low. */
  method OrLow(old_desc: nat, ghost pa: nat, ghost low: nat, v: nat,
               ghost c: nat, ghost p: nat, ghost m: nat, ghost k: nat, ghost n: nat) returns (desc: nat)
    requires pa % 0x1000 == 0 && low < 0x1000 && v == c * p < 0x1000 && old_desc == pa + low
    requires p == Pow2(k) && m == Pow2(n) && c < m && (low / p) % m == 0
    ensures desc == pa + low + v
  {
    OrConst(low, c, p, m, k, n);
    OrInPage(pa / 0x1000, low, v);
    desc := Or(old_desc, v);
  }

  /**
   Shareability and execute-never bits, by memory type; completes the descriptor. In bits:
   its type, the address in 47:12, MAIR index in 4:2, NS in 5, read-only in 7, shareability
   in 9:8, access flag in 10, PXN in 53 and UXN in 54.
   */
  method BlockDesc(pa: nat, attrs: nat, level: nat) returns (desc: nat)
    requires pa % 0x1000 == 0 && pa < ADDR_LIMIT && 1 <= level <= 3
    ensures EncodesBlock(desc, pa, attrs, level)
    ensures desc % 4 == (if level == 3 then 3 else 1) && desc % 0x1_0000_0000_0000 / 0x1000 * 0x1000 == pa
    ensures desc / 4 % 8 == attrs % 8 && desc / 0x400 % 2 == 1
    ensures desc / 0x20 % 2 == 1 <==> attrs / 0x10 % 2 == 1
    ensures desc / 0x80 % 2 == 0 <==> attrs / 8 % 2 == 1
    ensures desc / 0x100 % 4 == if attrs % 8 == 4 then 3 else if attrs % 8 <= 5 then 2 else 0
    ensures desc / 0x20_0000_0000_0000 % 2 == 1 <==>
            attrs % 8 <= 2 || (3 <= attrs % 8 <= 5 && attrs / 0x20 % 2 == 1)
    ensures desc / 0x40_0000_0000_0000 % 2 == 1 <==> attrs % 8 <= 2
  {
    desc := WholeDesc(pa, attrs, level);
    MeaningBits(desc, attrs);
  }

  /** The attribute fields of any word, bit by bit. */
  lemma AttrBitsOf(desc: nat)
    ensures var a := AttrOf(desc);
            && a.memType == desc / 4 % 8 && a.share == desc / 0x100 % 4
            && (a.nonSecure <==> desc / 0x20 % 2 == 1) && (a.readOnly <==> desc / 0x80 % 2 == 1)
            && (a.accessed <==> desc / 0x400 % 2 == 1)
            && (a.privExecNever <==> desc / 0x20_0000_0000_0000 % 2 == 1)
            && (a.execNever <==> desc / 0x40_0000_0000_0000 % 2 == 1)
  {
    Nested(desc, 0x1_0000_0000_0000, 0x20);
    Nested(desc, 0x1_0000_0000_0000, 0x40);
    var l := desc % 0x1000;
    LowField(desc, 4, 8, 0x80);
    Nested(l, 4, 8);
    LowField(desc, 0x20, 2, 0x40);
    Nested(l, 4, 0x20);
    LowField(desc, 0x80, 2, 0x10);
    Nested(l, 4, 0x40);
    LowField(desc, 0x100, 4, 4);
    Nested(l, 4, 0x100);
    LowField(desc, 0x400, 2, 2);
  }

  /** A field inside bits 11:0. */
  lemma LowField(x: nat, d: nat, w: nat, c: nat)
    requires d > 0 && w > 0 && d * (w * c) == 0x1000
    ensures x % 0x1000 / d % w == x / d % w
  {
    var q, l := x / 0x1000, x % 0x1000;
    Recompose(x, 0x1000);
    assert q * 0x1000 == d * (q * (w * c)) by { assert d * (q * (w * c)) == q * (d * (w * c)); }
    Recompose(l, d);
    Quotient(x, d, q * (w * c) + l / d, l % d);
    Recompose(l / d, w);
    assert q * (w * c) == w * (q * c);
    Quotient(x / d, w, q * c + l / d / w, l / d % w);
  }

  lemma Nested(x: nat, a: nat, b: nat)
    requires a > 0 && b > 0
    ensures x / a / b == x / (a * b)
  {
    var q := x / a;
    Recompose(x, a);
    Recompose(q, b);
    assert x == q / b * b * a + q % b * a + x % a;
    assert q / b * b * a == (a * b) * (q / b);
    MulBound(q % b, b, a);
    Quotient(x, a * b, q / b, q % b * a + x % a);
  }

  lemma MulBound(r: nat, b: nat, a: nat)
    requires r < b
    ensures r * a + a <= a * b
  {
    assert r * a + a == (r + 1) * a;
    assert (r + 1) * a <= b * a;
  }

  lemma MeaningBits(desc: nat, attrs: nat)
    requires AttrOf(desc) == Meaning(attrs)
    ensures HasAttrs(desc, attrs)
  {
    AttrBitsOf(desc);
    hide AttrOf;
  }

  method WholeDesc(pa: nat, attrs: nat, level: nat) returns (desc: nat)
    requires pa % 0x1000 == 0 && pa < ADDR_LIMIT && 1 <= level <= 3
    ensures EncodesBlock(desc, pa, attrs, level)
  {
    hide Or, And, Pow2;
    SmallPowers();
    desc := BlockDescLow(pa, attrs, level);
    AttrBits(attrs);
    FieldsOfLow(attrs, level, 0);
    ghost var low := LowBits(attrs, level);
    var memType := And(attrs, 7);
    if memType == 0 || memType == 1 || memType == 2 {
      desc := OrLow(desc, pa, low, 0x200, 2, 0x100, 4, 8, 2);
      desc := OrExecNever(desc, pa, low + 0x200, 0, 0);
      desc := OrExecNever(desc, pa, low + 0x200, 1, 1);
      Assemble(desc, pa, attrs, level, 2, 96);
    } else if memType == 3 || memType == 4 || memType == 5 {
      desc := NormalMemory(desc, pa, attrs, level, memType);
    } else {
      Assemble(desc, pa, attrs, level, 0, 0);
    }
  }

  method NormalMemory(old_desc: nat, ghost pa: nat, attrs: nat, ghost level: nat, memType: nat) returns (desc: nat)
    requires pa % 0x1000 == 0 && pa < ADDR_LIMIT && 1 <= level <= 3
    requires memType == attrs % 8 && 3 <= memType <= 5
    requires old_desc == pa + LowBits(attrs, level)
    ensures EncodesBlock(desc, pa, attrs, level)
  {
    hide Or, And, Pow2;
    SmallPowers();
    AttrBits(attrs);
    FieldsOfLow(attrs, level, 0);
    ghost var low := LowBits(attrs, level);
    var share := if memType == 4 then 3 else 2;
    desc := OrLow(old_desc, pa, low, share * 0x100, share, 0x100, 4, 8, 2);
    FieldsOfLow(attrs, level, share);
    if And(attrs, ATTR_EXECUTE_NEVER) != 0 {
      desc := OrExecNever(desc, pa, low + share * 0x100, 0, 0);
      Assemble(desc, pa, attrs, level, share, 32);
    } else {
      Assemble(desc, pa, attrs, level, share, 0);
    }
  }

  lemma OrInPage(h: nat, low: nat, v: nat)
    requires low < 0x1000 && v < 0x1000
    ensures Or(h * 0x1000 + low, v) == h * 0x1000 + Or(low, v)
  {
    assert Pow2(12) == 0x1000;
    OrSplit(h, low, 0, v, 12);
    OrZero(h);
  }

  lemma FieldsOfLow(attrs: nat, level: nat, share: nat)
    requires share < 4 && 1 <= level <= 3
    ensures var low := LowBits(attrs, level) + share * 0x100;
            && low < 0x1000
            && low % 4 == (if level == 3 then PAGE_DESC else BLOCK_DESC)
            && low / 0x100 % 4 == share
            && FieldsOf(low / 4, 0)
               == Attr(attrs % 8, attrs / 16 % 2 == 1, attrs / 8 % 2 == 0, share, true, false, false)
  {
    var kind := if level == 3 then PAGE_DESC else BLOCK_DESC;
    DigitsOfLow(kind, attrs % 8, Digit(attrs / 16 % 2 == 1), Digit(attrs / 8 % 2 == 0), share, 1);
  }

  lemma DigitsOfLow(kind: nat, memType: nat, ns: nat, ro: nat, share: nat, af: nat)
    requires kind < 4 && memType < 8 && ns < 2 && ro < 2 && share < 4 && af < 2
    ensures var low := kind + memType * 4 + ns * 0x20 + ro * 0x80 + share * 0x100 + af * 0x400;
            && low % 4 == kind && low / 0x100 % 4 == share && low / 4 % 8 == memType
            && low / 4 / 8 % 2 == ns && low / 4 / 32 % 2 == ro && low / 4 / 64 % 4 == share
            && low / 4 / 256 % 2 == af
  {
    hide Or, Pow2;
    var low := kind + memType * 4 + ns * 0x20 + ro * 0x80 + share * 0x100 + af * 0x400;
    Quotient(low, 4, memType + ns * 8 + ro * 32 + share * 64 + af * 256, kind);
    var r := low / 4;
    Quotient(r, 8, ns + ro * 4 + share * 8 + af * 32, memType);
    Quotient(r / 8, 2, ro * 2 + share * 4 + af * 16, ns);
    Quotient(r, 32, ro + share * 2 + af * 8, memType + ns * 8);
    Quotient(r / 32, 2, share + af * 4, ro);
    Quotient(r, 64, share + af * 4, memType + ns * 8 + ro * 32);
    Quotient(share + af * 4, 4, af, share);
    Quotient(r, 256, af, memType + ns * 8 + ro * 32 + share * 64);
    Quotient(low, 0x100, share + af * 4, kind + memType * 4 + ns * 0x20 + ro * 0x80);
  }

  lemma Assemble(desc: nat, pa: nat, attrs: nat, level: nat, share: nat, high: nat)
    requires pa % 0x1000 == 0 && pa < ADDR_LIMIT && 1 <= level <= 3 && share < 4 && high <= 96
    requires desc == pa + LowBits(attrs, level) + share * 0x100 + high * ADDR_LIMIT
    requires FieldsOf(0, high)
             == FieldsOf(0, Digit(Meaning(attrs).privExecNever) * 32 + Digit(Meaning(attrs).execNever) * 64)
    requires share == Meaning(attrs).share
    ensures EncodesBlock(desc, pa, attrs, level)
  {
    hide Or, Pow2;
    FieldsOfLow(attrs, level, share);
    DescParts(desc, high, pa / 0x1000, LowBits(attrs, level) + share * 0x100);
  }

  /** desc |= PXN (bit 0) or UXN (bit 1, PXN being set). */
  method OrExecNever(old_desc: nat, ghost pa: nat, ghost low: nat, ghost pxn: nat, bit: nat) returns (desc: nat)
    requires pa % 0x1000 == 0 && pa < ADDR_LIMIT && low < 0x1000 && pxn == bit < 2
    requires old_desc == pa + low + pxn * 0x20_0000_0000_0000
    ensures desc == old_desc + (if bit == 0 then 0x20_0000_0000_0000 else 0x40_0000_0000_0000)
  {
    Powers();
    if bit == 0 {
      OrConst(old_desc, 1, 0x20_0000_0000_0000, 2, 53, 1);
      desc := Or(old_desc, 0x20_0000_0000_0000);
    } else {
      OrConst(old_desc, 1, 0x40_0000_0000_0000, 2, 54, 1);
      desc := Or(old_desc, 0x40_0000_0000_0000);
    }
  }

  /** A word cut into bits 63:48, 47:12 and 11:0. */
  lemma DescParts(desc: nat, high: nat, frame: nat, low: nat)
    requires frame < VA_LIMIT && low < 0x1000
    requires desc == high * ADDR_LIMIT + frame * 0x1000 + low
    ensures desc / ADDR_LIMIT == high
    ensures desc % ADDR_LIMIT == frame * 0x1000 + low
    ensures desc % ADDR_LIMIT / 0x1000 == frame
    ensures desc % 0x1000 == low && desc % 4 == low % 4
  {
    Quotient(desc, ADDR_LIMIT, high, frame * 0x1000 + low);
    Quotient(frame * 0x1000 + low, 0x1000, frame, low);
    Quotient(desc, 0x1000, high * VA_LIMIT + frame, low);
    Quotient(desc, 4, (high * VA_LIMIT + frame) * 0x400 + low / 4, low % 4);
  }

  /** The parts of any word. */
  lemma WordParts(desc: nat) returns (high: nat, frame: nat, low: nat)
    ensures frame < VA_LIMIT && low < 0x1000
    ensures desc == high * ADDR_LIMIT + frame * 0x1000 + low
  {
    high, frame, low := desc / ADDR_LIMIT, desc % ADDR_LIMIT / 0x1000, desc % ADDR_LIMIT % 0x1000;
  }

  /** A block descriptor of a level-1 or level-2 table, its address aligned to the block. */
  ghost predicate AlignedBlock(desc: nat, level: nat)
    requires 1 <= level <= 3
  {
    desc % 4 == BLOCK_DESC && desc % ADDR_LIMIT / 0x1000 * 0x1000 % LevelSize(level) == 0
  }

  /** Entry i of a split block, as SplitPteBlockDesc computes it. */
  function SplitEntry(desc: nat, i: nat, level: nat): nat
    requires 1 <= level <= 2
  {
    var entry := Or(desc, i * LevelSize(level + 1));
    if level == 2 then Or(entry, PAGE_DESC) else entry
  }

  lemma SplitOr(desc: nat, i: nat, level: nat)
    requires 1 <= level <= 2 && i < 512 && AlignedBlock(desc, level)
    ensures SplitEntry(desc, i, level) == desc + i * LevelSize(level + 1) + (if level == 2 then 2 else 0)
  {
    if level == 1 {
      SplitOrLevel1(desc, i);
    } else {
      SplitOrLevel2(desc, i);
    }
  }

  lemma SplitOrLevel1(desc: nat, i: nat)
    requires i < 512 && AlignedBlock(desc, 1)
    ensures Or(desc, i * 0x20_0000) == desc + i * 0x20_0000
  {
    ClearIndex(desc, 1);
    Powers();
    OrConst(desc, i, 0x20_0000, 512, 21, 9);
  }

  lemma SplitOrLevel2(desc: nat, i: nat)
    requires i < 512 && AlignedBlock(desc, 2)
    ensures Or(desc, i * 0x1000) == desc + i * 0x1000
    ensures Or(desc + i * 0x1000, PAGE_DESC) == desc + i * 0x1000 + 2
  {
    hide Or, And, Pow2;
    SmallPowers();
    ClearIndex(desc, 2);
    OrConst(desc, i, 0x1000, 512, 12, 9);
    var entry := desc + i * 0x1000;
    assert entry % 4 == BLOCK_DESC;
    OrThree(entry);
  }

  /** In an aligned block descriptor the index field of the next level is zero. */
  lemma ClearIndex(desc: nat, level: nat)
    requires 1 <= level <= 2 && AlignedBlock(desc, level)
    ensures desc / LevelSize(level + 1) % 512 == 0
  {
    hide And, Or, Pow2;
    var high, frame, low := BlockParts(desc, level);
    if level == 1 {
      Quotient(desc, 0x20_0000, high * 0x800_0000 + frame / 0x200, low);
      Quotient(high * 0x800_0000 + frame / 0x200, 512, high * 0x4_0000 + frame / 0x4_0000, 0);
    } else {
      Quotient(desc, 0x1000, high * VA_LIMIT + frame, low);
      Quotient(high * VA_LIMIT + frame, 512, high * 0x800_0000 + frame / 0x200, 0);
    }
  }

  lemma BlockParts(desc: nat, level: nat) returns (high: nat, frame: nat, low: nat)
    requires 1 <= level <= 2 && AlignedBlock(desc, level)
    ensures frame < VA_LIMIT && low < 0x1000 && low % 4 == BLOCK_DESC
    ensures desc == high * ADDR_LIMIT + frame * 0x1000 + low
    ensures frame % (if level == 1 then 0x4_0000 else 0x200) == 0
    ensures high == desc / ADDR_LIMIT && frame * 0x1000 + low == desc % ADDR_LIMIT
    ensures frame * 0x1000 % LevelSize(level) == 0 && (desc < WORD ==> high < 0x1_0000)
  {
    high, frame, low := WordParts(desc);
    DescParts(desc, high, frame, low);
    var unit := if level == 1 then 0x4_0000 else 0x200;
    Quotient(frame * 0x1000, LevelSize(level), frame / unit, frame % unit * 0x1000);
  }

  /**
   Splitting keeps the translation: the entry for va decodes to the same output address
   and the same attributes as the block did, with the descriptor type of its level.
   */
  lemma SplitPreservesDecode(desc: nat, level: nat, va: nat)
    requires 1 <= level <= 2 && desc < WORD && AlignedBlock(desc, level)
    ensures var entry := SplitEntry(desc, va / LevelSize(level + 1) % 512, level);
            && entry < WORD
            && (if level == 2 then entry % 4 == PAGE_DESC else AlignedBlock(entry, 2))
            && Decode(entry, level + 1, va) == Decode(desc, level, va)
  {
    hide And, Or, Pow2, AttrOf;
    var i := va / LevelSize(level + 1) % 512;
    SplitOr(desc, i, level);
    if level == 1 {
      SplitLevel1(desc, i, va);
    } else {
      SplitLevel2(desc, i, va);
    }
  }

  lemma SplitLevel1(desc: nat, i: nat, va: nat)
    requires desc < WORD && AlignedBlock(desc, 1) && i == va / 0x20_0000 % 512
    ensures var entry := desc + i * 0x20_0000;
            entry < WORD && AlignedBlock(entry, 2) && Decode(entry, 2, va) == Decode(desc, 1, va)
  {
    hide And, Or, Pow2, Decode, AttrOf, FieldsOf;
    var high, frame, low := BlockParts(desc, 1);
    var entry := desc + i * 0x20_0000;
    NextFrame(high, frame, low, i);
    SubOffset(va, 0x20_0000);
    DecodeParts(desc, high, frame, low, 1, va);
    DecodeParts(entry, high, frame + i * 512, low, 2, va);
  }

  /** Moving i 2 MiB blocks into a 1 GiB block keeps the frame in range and aligned. */
  lemma NextFrame(high: nat, frame: nat, low: nat, i: nat)
    requires frame < VA_LIMIT && frame % 0x4_0000 == 0 && i < 512
    ensures frame + i * 512 < VA_LIMIT && (frame + i * 512) * 0x1000 % 0x20_0000 == 0
    ensures high * ADDR_LIMIT + frame * 0x1000 + low + i * 0x20_0000
         == high * ADDR_LIMIT + (frame + i * 512) * 0x1000 + low
  {
    Quotient((frame + i * 512) * 0x1000, 0x20_0000, frame / 0x200 + i, 0);
  }

  lemma SplitLevel2(desc: nat, i: nat, va: nat)
    requires desc < WORD && AlignedBlock(desc, 2) && i == va / 0x1000 % 512
    ensures var entry := desc + i * 0x1000 + 2;
            entry < WORD && entry % 4 == PAGE_DESC && Decode(entry, 3, va) == Decode(desc, 2, va)
  {
    hide And, Or, Pow2, Decode, AttrOf, FieldsOf;
    var high, frame, low := BlockParts(desc, 2);
    var entry := desc + i * 0x1000 + 2;
    Quotient(low + 2, 4, low / 4, 3);
    DecodeParts(desc, high, frame, low, 2, va);
    DecodeParts(entry, high, frame + i, low + 2, 3, va);
    SubOffset(va, 0x1000);
  }

  /** Decoding a word given by its parts, its frame aligned to the entry size. */
  lemma DecodeParts(desc: nat, high: nat, frame: nat, low: nat, level: nat, va: nat)
    requires 1 <= level <= 3 && frame < VA_LIMIT && low < 0x1000
    requires desc == high * ADDR_LIMIT + frame * 0x1000 + low
    requires low % 4 == (if level == 3 then PAGE_DESC else BLOCK_DESC)
    requires frame * 0x1000 % LevelSize(level) == 0
    ensures Decode(desc, level, va)
         == Some(Output(frame * 0x1000 + va % LevelSize(level), FieldsOf(low / 4, high)))
    ensures desc % 4 == low % 4 && (level < 3 ==> AlignedBlock(desc, level))
    ensures high < 0x1_0000 ==> desc < WORD
  {
    hide And, Or, Pow2, FieldsOf;
    DescParts(desc, high, frame, low);
    Quotient(frame * 0x1000 + low, LevelSize(level), frame * 0x1000 / LevelSize(level), low);
  }

  lemma SubOffset(va: nat, size: nat)
    requires size == 0x20_0000 || size == 0x1000
    ensures va % (512 * size) == va / size % 512 * size + va % size
  {
    var q, r := va / size, va % size;
    if size == 0x1000 {
      Quotient(va, 0x20_0000, q / 512, q % 512 * size + r);
    } else {
      Quotient(va, 0x4000_0000, q / 512, q % 512 * size + r);
    }
  }
}
