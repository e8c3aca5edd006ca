/**
 Loading a guest image on QEMU (src/fs/loader.cc): the whole disk, sector by sector,
 into fresh pages behind consecutive guest addresses. Joins the frame allocator, the
 stage-2 tables and the disk driver.
 */
module Loader {
  import opened Stage2
  import opened Stage2Tree
  import opened Wrappers

  import Bits
  import Blk = VirtioBlk

  const SECTORS_PER_PAGE: nat := 8

  datatype LoadResult = Loaded | ReadFailed | Panicked

  /** The byte an image of n sectors has at an offset; past its end, the fill of the last page. */
  ghost function ImageByte(disk: seq<seq<nat>>, n: nat, offset: nat): nat
    requires n <= |disk| && Blk.DiskOk(disk)
  {
    if offset < Blk.SECTOR_SIZE * n then disk[offset / Blk.SECTOR_SIZE][offset % Blk.SECTOR_SIZE] else 0
  }

  /** Page k of an image loaded at va: va is rounded down to a page. */
  function ImagePage(va: nat, k: nat): nat {
    (va / 0x1000 + k) % IPA_PAGES
  }

  function PageCount(n: nat): nat {
    (n + SECTORS_PER_PAGE - 1) / SECTORS_PER_PAGE
  }

  /** The frame at base holds the first bytes of the image from an offset on, then zeros. */
  ghost predicate Filled(bytes: seq<nat>, base: nat, size: nat, disk: seq<seq<nat>>, n: nat, offset: nat)
    requires n <= |disk| && Blk.DiskOk(disk)
  {
    base + FRAME_BYTES <= |bytes| &&
    forall x :: base <= x < base + FRAME_BYTES ==>
      bytes[x] == if x < base + size then ImageByte(disk, n, offset + (x - base)) else 0
  }

  /** Frame u holds the image from a byte offset on. */
  ghost predicate FrameHolds(mem: Memory, u: nat, disk: seq<seq<nat>>, n: nat, offset: nat)
    requires mem.Layout() && n <= |disk| && Blk.DiskOk(disk)
    reads mem.user
  {
    u < USER_PAGES && Filled(mem.user[..], FRAME_BYTES * u, FRAME_BYTES, disk, n, offset)
  }

  /** One more sector of a frame is read. */
  lemma SectorFills(bytes0: seq<nat>, bytes: seq<nat>, base: nat, done: nat, disk: seq<seq<nat>>, n: nat, sector: nat)
    requires n <= |disk| && Blk.DiskOk(disk) && done < SECTORS_PER_PAGE && sector + done < n
    requires Filled(bytes0, base, Blk.SECTOR_SIZE * done, disk, n, Blk.SECTOR_SIZE * sector)
    requires base + FRAME_BYTES <= |bytes0|
    requires bytes ==
             bytes0[..base + Blk.SECTOR_SIZE * done] + disk[sector + done]
             + bytes0[base + Blk.SECTOR_SIZE * (done + 1)..]
    ensures Filled(bytes, base, Blk.SECTOR_SIZE * (done + 1), disk, n, Blk.SECTOR_SIZE * sector)
  {
    var off := base + Blk.SECTOR_SIZE * done;
    forall x | base <= x < base + FRAME_BYTES
      ensures bytes[x] ==
              if x < off + Blk.SECTOR_SIZE then ImageByte(disk, n, Blk.SECTOR_SIZE * sector + (x - base)) else 0
    {
      if x < off {
        assert bytes[x] == bytes0[x];
      } else if x < off + Blk.SECTOR_SIZE {
        assert bytes[x] == disk[sector + done][x - off];
        var offset := Blk.SECTOR_SIZE * sector + (x - base);
        assert offset == Blk.SECTOR_SIZE * (sector + done) + (x - off);
      } else {
        assert bytes[x] == bytes0[x];
      }
    }
  }

  /** The first pages of the image lie in the given frames, behind the addresses from va on. */
  ghost predicate Holds(mem: Memory, bytes: seq<nat>, view: map<nat, nat>, owner: seq<Option<Holder>>,
                        t: Task, va: nat, disk: seq<seq<nat>>, n: nat, frames: seq<nat>)
    requires n <= |disk| && Blk.DiskOk(disk)
  {
    |owner| == USER_PAGES &&
    forall k :: 0 <= k < |frames| ==>
      && frames[k] < USER_PAGES && Filled(bytes, FRAME_BYTES * frames[k], FRAME_BYTES, disk, n, FRAME_BYTES * k)
      && Lookup(view, ImagePage(va, k)) == Some(mem.UserAddr(frames[k]) + PTE_DRAM)
      && owner[frames[k]] == Some(Holder(t, ImagePage(va, k)))
  }

  ghost predicate SameBut(bytes: seq<nat>, bytes0: seq<nat>, u: nat) {
    |bytes| == |bytes0| &&
    forall b :: 0 <= b < |bytes| && !(FRAME_BYTES * u <= b < FRAME_BYTES * u + FRAME_BYTES) ==> bytes[b] == bytes0[b]
  }

  /** Distinct pages of an image have distinct addresses. */
  lemma PagesDiffer(va: nat, i: nat, k: nat)
    requires i < k < IPA_PAGES
    ensures ImagePage(va, i) != ImagePage(va, k)
  {
  }

  /** cur += PAGE_SIZE in 64 bits. */
  function NextAddr(cur: nat): (next: nat)
    ensures next < Bits.WORD
  {
    (cur + 0x1000) % Bits.WORD
  }

  lemma NextPage(va: nat, cur: nat, k: nat)
    requires cur < Bits.WORD && PageOf(cur) == ImagePage(va, k)
    ensures PageOf(NextAddr(cur)) == ImagePage(va, k + 1)
  {
    var q, r := cur / 0x1000, cur % 0x1000;
    if cur + 0x1000 < Bits.WORD {
      Bits.Quotient(cur + 0x1000, 0x1000, q + 1, r);
    } else {
      Bits.Quotient(cur + 0x1000 - Bits.WORD, 0x1000, q + 1 - 0x10_0000_0000_0000, r);
      assert PageOf(NextAddr(cur)) == (q + 1) % IPA_PAGES;
    }
    SuccMod(q, va / 0x1000 + k);
  }

  lemma SuccMod(a: nat, b: nat)
    requires a % IPA_PAGES == b % IPA_PAGES
    ensures (a + 1) % IPA_PAGES == (b + 1) % IPA_PAGES
  {
  }

  /** A page more: its frame was free before, so no earlier page is touched. */
  lemma PageAdds(mem: Memory, t: Task, va: nat, disk: seq<seq<nat>>, n: nat, frames: seq<nat>, u: nat,
                 bytes0: seq<nat>, view0: map<nat, nat>, owner0: seq<Option<Holder>>,
                 bytes: seq<nat>, view: map<nat, nat>, owner: seq<Option<Holder>>)
    requires n <= |disk| && Blk.DiskOk(disk) && |frames| < IPA_PAGES && u < USER_PAGES && |owner0| == USER_PAGES
    requires Holds(mem, bytes0, view0, owner0, t, va, disk, n, frames) && owner0[u].None?
    requires SameBut(bytes, bytes0, u) && Filled(bytes, FRAME_BYTES * u, FRAME_BYTES, disk, n, FRAME_BYTES * |frames|)
    requires view == view0[ImagePage(va, |frames|) := mem.UserAddr(u) + PTE_DRAM]
    requires owner == owner0[u := Some(Holder(t, ImagePage(va, |frames|)))]
    ensures Holds(mem, bytes, view, owner, t, va, disk, n, frames + [u])
  {
    hide ImagePage;
    var after := frames + [u];
    forall k | 0 <= k < |after|
      ensures after[k] < USER_PAGES && Filled(bytes, FRAME_BYTES * after[k], FRAME_BYTES, disk, n, FRAME_BYTES * k)
      ensures Lookup(view, ImagePage(va, k)) == Some(mem.UserAddr(after[k]) + PTE_DRAM)
      ensures owner[after[k]] == Some(Holder(t, ImagePage(va, k)))
    {
      if k < |frames| {
        PagesDiffer(va, k, |frames|);
        assert frames[k] != u;
      }
    }
  }

  /** Pages outside the image translate as before. */
  ghost predicate ViewOutside(view: map<nat, nat>, view0: map<nat, nat>, va: nat, count: nat) {
    forall p :: (forall k :: 0 <= k < count ==> ImagePage(va, k) != p) ==> Lookup(view, p) == Lookup(view0, p)
  }

  /** Frames that were handed out before keep their holder and their bytes. */
  ghost predicate OthersKept(bytes: seq<nat>, bytes0: seq<nat>, owner: seq<Option<Holder>>,
                             owner0: seq<Option<Holder>>) {
    && |bytes| == |bytes0| == USER_PAGES * FRAME_BYTES && |owner| == |owner0| == USER_PAGES
    && (forall u :: 0 <= u < USER_PAGES && owner0[u].Some? ==> owner[u] == owner0[u])
    && (forall b :: 0 <= b < |bytes0| && owner0[b / FRAME_BYTES].Some? ==> bytes[b] == bytes0[b])
  }

  lemma OthersStay(bytes: seq<nat>, mid: seq<nat>, bytes0: seq<nat>, owner: seq<Option<Holder>>,
                   mine: seq<Option<Holder>>, owner0: seq<Option<Holder>>, u: nat)
    requires OthersKept(mid, bytes0, mine, owner0) && SameBut(bytes, mid, u)
    requires u < USER_PAGES && |owner| == USER_PAGES && mine[u].None? && owner == mine[u := owner[u]]
    ensures OthersKept(bytes, bytes0, owner, owner0)
  {
  }

  /** The driver's queue shares no memory with guest memory and its books. */
  ghost predicate Apart(mem: Memory, blk: Blk.VirtioBlk) {
    && blk.data != mem.user && blk.data != mem.heap && blk.data != mem.userMap
    && blk.availRing != mem.user && blk.availRing != mem.heap && blk.availRing != mem.userMap
    && blk.usedRing != mem.user && blk.usedRing != mem.heap && blk.usedRing != mem.userMap
  }

  /** One of the device's transfers from one number up to another fails. */
  ghost predicate Fails(oracle: Blk.Oracle, from: nat, to: nat) {
    exists n :: from <= n < to && oracle.fails(n)
  }

  lemma FailsWithin(oracle: Blk.Oracle, first: nat, from: nat, to: nat, last: nat)
    requires first <= from && to <= last
    ensures Fails(oracle, from, to) ==> Fails(oracle, first, last)
  {
  }

  /** The next sector of a page whose frame, u, holds the sectors before it. */
  method LoadSector(mem: Memory, blk: Blk.VirtioBlk, ghost u: nat, buf: nat, sector: nat,
                    ghost done: nat, ghost first: nat, ghost before: seq<nat>) returns (ok: bool)
    requires mem.Layout() && blk.Quiet() && Apart(mem, blk) && u < USER_PAGES && mem.SameOutside(before, u)
    requires done < SECTORS_PER_PAGE && buf == FRAME_BYTES * u + Blk.SECTOR_SIZE * done
    requires sector == first + done < Blk.Sectors(blk.config) <= |blk.disk| && Blk.DiskOk(blk.disk)
    requires Filled(mem.user[..], FRAME_BYTES * u, Blk.SECTOR_SIZE * done, blk.disk, Blk.Sectors(blk.config),
                    Blk.SECTOR_SIZE * first)
    modifies mem.user, blk, blk.descs, blk.availRing, blk.usedRing, blk.data
    ensures blk.Quiet() && blk.disk == old(blk.disk) && mem.SameOutside(before, u)
    ensures blk.transfers == old(blk.transfers) + 1 && (ok <==> !blk.oracle.fails(old(blk.transfers)))
    ensures ok ==>
              Filled(mem.user[..], FRAME_BYTES * u, Blk.SECTOR_SIZE * (done + 1), blk.disk, Blk.Sectors(blk.config),
                     Blk.SECTOR_SIZE * first)
  {
    hide *;
    RoomFor(mem, blk, u, done);
    SameFrames(mem, before, u);
    ghost var bytes0: seq<nat> := mem.user[..];
    ok := blk.ReadDisk(mem.user, buf, sector);
    SectorOutside(mem, before, bytes0, u, done, buf, blk.disk, sector);
    if ok {
      SectorFills(bytes0, mem.user[..], FRAME_BYTES * u, done, blk.disk, Blk.Sectors(blk.config), first);
    }
  }

  /** The inner loop: up to eight sectors into one zeroed frame. */
  method LoadPage(mem: Memory, blk: Blk.VirtioBlk, ghost u: nat, buf: nat, sector: nat,
                  remains: nat) returns (ok: bool, done: nat)
    requires mem.Layout() && blk.Quiet() && Apart(mem, blk)
    requires u < USER_PAGES && buf == FRAME_BYTES * u && mem.FrameZero(u)
    requires sector + remains == Blk.Sectors(blk.config)
    modifies mem.user, blk, blk.descs, blk.availRing, blk.usedRing, blk.data
    ensures blk.Quiet() && blk.disk == old(blk.disk) && mem.SameOutside(old(mem.user[..]), u)
    ensures ok ==> done == AtOnce(remains) && blk.transfers == old(blk.transfers) + done
    ensures ok ==> FrameHolds(mem, u, blk.disk, Blk.Sectors(blk.config), Blk.SECTOR_SIZE * sector)
    ensures ok <==> !Fails(blk.oracle, old(blk.transfers), old(blk.transfers) + AtOnce(remains))
  {
    hide Filled, FrameHolds, Memory.FrameZero, Memory.SameOutside, Blk.VirtioBlk.Quiet, Blk.DiskOk, Fails, Blk.Sectors;
    hide Memory.Layout, Apart;
    ok, done := true, 0;
    var offset := buf;
    DiskFits(blk);
    PageStarts(mem, u, blk.disk, sector + remains, sector);
    NoFailure(blk.oracle, blk.transfers, false);
    while done < SECTORS_PER_PAGE && done < remains
      invariant blk.Quiet() && blk.disk == old(blk.disk) && mem.SameOutside(old(mem.user[..]), u)
      invariant done <= AtOnce(remains) && offset == buf + Blk.SECTOR_SIZE * done
      invariant blk.transfers == old(blk.transfers) + done
      invariant !Fails(blk.oracle, old(blk.transfers), blk.transfers)
      invariant Filled(mem.user[..], buf, Blk.SECTOR_SIZE * done, blk.disk, sector + remains, Blk.SECTOR_SIZE * sector)
    {
      NoFailure(blk.oracle, blk.transfers, true);
      FailsJoin(blk.oracle, old(blk.transfers), blk.transfers, blk.transfers + 1);
      ok := LoadSector(mem, blk, u, offset, sector + done, done, sector, old(mem.user[..]));
      if !ok {
        FailsWithin(blk.oracle, old(blk.transfers), old(blk.transfers) + done, old(blk.transfers) + done + 1,
                    old(blk.transfers) + AtOnce(remains));
        return;
      }
      done := done + 1;
      offset := offset + Blk.SECTOR_SIZE;
    }
    PageEnds(mem, u, blk.disk, sector + remains, sector, done, remains);
  }

  lemma RoomFor(mem: Memory, blk: Blk.VirtioBlk, u: nat, done: nat)
    requires mem.Layout() && u < USER_PAGES && Apart(mem, blk) && done < SECTORS_PER_PAGE
    ensures FRAME_BYTES * u + FRAME_BYTES <= mem.user.Length
    ensures FRAME_BYTES * u + Blk.SECTOR_SIZE * done + Blk.SECTOR_SIZE ==
            FRAME_BYTES * u + Blk.SECTOR_SIZE * (done + 1) <= mem.user.Length
    ensures mem.user !in {blk.data, blk.availRing, blk.usedRing}
  {
  }

  lemma DiskFits(blk: Blk.VirtioBlk)
    requires blk.Quiet()
    ensures Blk.Sectors(blk.config) <= |blk.disk| && Blk.DiskOk(blk.disk)
  {
  }

  lemma PageStarts(mem: Memory, u: nat, disk: seq<seq<nat>>, n: nat, sector: nat)
    requires mem.Layout() && u < USER_PAGES && mem.FrameZero(u) && n <= |disk| && Blk.DiskOk(disk)
    ensures Filled(mem.user[..], FRAME_BYTES * u, 0, disk, n, Blk.SECTOR_SIZE * sector)
    ensures mem.SameOutside(mem.user[..], u)
  {
  }

  /** With all sectors there are, the frame is full, or holds zeros behind the image's end. */
  lemma PageEnds(mem: Memory, u: nat, disk: seq<seq<nat>>, n: nat, sector: nat, done: nat, remains: nat)
    requires mem.Layout() && u < USER_PAGES && n <= |disk| && Blk.DiskOk(disk)
    requires n == sector + remains && done == AtOnce(remains)
    requires Filled(mem.user[..], FRAME_BYTES * u, Blk.SECTOR_SIZE * done, disk, n, Blk.SECTOR_SIZE * sector)
    ensures FrameHolds(mem, u, disk, n, Blk.SECTOR_SIZE * sector)
  {
  }

  lemma NoFailure(oracle: Blk.Oracle, at: nat, one: bool)
    ensures !one ==> !Fails(oracle, at, at)
    ensures one ==> (Fails(oracle, at, at + 1) <==> oracle.fails(at))
  {
  }

  lemma FailsJoin(oracle: Blk.Oracle, first: nat, mid: nat, last: nat)
    requires first <= mid <= last
    ensures Fails(oracle, first, last) <==> Fails(oracle, first, mid) || Fails(oracle, mid, last)
  {
  }

  /** A sector read into the frame, or not, leaves the bytes outside the frame. */
  lemma SectorOutside(mem: Memory, bytes0: seq<nat>, mid: seq<nat>, u: nat, done: nat, offset: nat,
                      disk: seq<seq<nat>>, sector: nat)
    requires mem.Layout() && u < USER_PAGES && SameBut(mid, bytes0, u) && |mid| == mem.user.Length
    requires done < SECTORS_PER_PAGE && offset == FRAME_BYTES * u + Blk.SECTOR_SIZE * done
    requires Blk.DiskOk(disk) && sector < |disk|
    requires mem.user[..] == mid || mem.user[..] == mid[..offset] + disk[sector] + mid[offset + Blk.SECTOR_SIZE..]
    ensures mem.SameOutside(bytes0, u)
  {
    forall b | 0 <= b < |mid| && !(FRAME_BYTES * u <= b < FRAME_BYTES * u + FRAME_BYTES)
      ensures mem.user[b] == bytes0[b]
    {
      assert mem.user[b] == mem.user[..][b] == mid[b];
    }
  }

  /** How many sectors go into the next page. */
  function AtOnce(remains: nat): nat {
    if remains < SECTORS_PER_PAGE then remains else SECTORS_PER_PAGE
  }

  /** What is known after each page, from the guest memory, the task's view and the frames' holders. */
  ghost predicate ProgressIn(mem: Memory, bytes: seq<nat>, view: map<nat, nat>, owner: seq<Option<Holder>>,
                             t: Task, va: nat, disk: seq<seq<nat>>, n: nat, frames: seq<nat>,
                             bytes0: seq<nat>, view0: map<nat, nat>, owner0: seq<Option<Holder>>)
    requires n <= |disk| && Blk.DiskOk(disk)
  {
    && Holds(mem, bytes, view, owner, t, va, disk, n, frames)
    && ViewOutside(view, view0, va, |frames|)
    && OthersKept(bytes, bytes0, owner, owner0)
  }

  ghost predicate Progress(mem: Memory, t: Task, va: nat, disk: seq<seq<nat>>, n: nat, frames: seq<nat>,
                           bytes0: seq<nat>, view0: map<nat, nat>, owner0: seq<Option<Holder>>)
    requires n <= |disk| && Blk.DiskOk(disk)
    reads mem`owner, mem.user, t`view
  {
    ProgressIn(mem, mem.user[..], t.view, mem.owner, t, va, disk, n, frames, bytes0, view0, owner0)
  }

  lemma ProgressAdds(mem: Memory, t: Task, va: nat, disk: seq<seq<nat>>, n: nat, frames: seq<nat>, u: nat, ipa: nat,
                     mid: seq<nat>, viewMid: map<nat, nat>, ownerMid: seq<Option<Holder>>,
                     bytes0: seq<nat>, view0: map<nat, nat>, owner0: seq<Option<Holder>>)
    requires mem.Layout() && n <= |disk| && Blk.DiskOk(disk) && |frames| < IPA_PAGES
    requires PageOf(ipa) == ImagePage(va, |frames|)
    requires ProgressIn(mem, mid, viewMid, ownerMid, t, va, disk, n, frames, bytes0, view0, owner0)
    requires mem.Mapped(t, ipa, u, mem.UserAddr(u), viewMid, ownerMid)
    requires SameBut(mem.user[..], mid, u) && FrameHolds(mem, u, disk, n, FRAME_BYTES * |frames|)
    ensures Progress(mem, t, va, disk, n, frames + [u], bytes0, view0, owner0)
  {
    hide PageOf, ImagePage, Holds, ViewOutside, OthersKept, Filled, SameBut, Blk.DiskOk;
    PageAdds(mem, t, va, disk, n, frames, u, mid, viewMid, ownerMid, mem.user[..], t.view, mem.owner);
    OthersStay(mem.user[..], mid, bytes0, mem.owner, ownerMid, owner0, u);
    ViewGrows(t.view, viewMid, view0, va, |frames|, mem.UserAddr(u) + PTE_DRAM);
  }

  // The heap pages and frames that a load needs.

  /** The task has the table of the level for page k of the image, or the load has made it by then. */
  ghost predicate Served(use: seq<Use<Task>>, t: Task, va: nat, k: nat, level: nat)
    requires 1 <= level <= 3
  {
    Has(use, t, level, ImagePage(va, k)) ||
    exists i :: 0 <= i < k && SameBlock(level, ImagePage(va, k), ImagePage(va, i))
  }

  /** The tables that page k of the image is the first to need. */
  ghost function NewTables(use: seq<Use<Task>>, t: Task, va: nat, k: nat): nat {
    (if Served(use, t, va, k, 1) then 0 else 1) +
    (if Served(use, t, va, k, 2) then 0 else 1) +
    (if Served(use, t, va, k, 3) then 0 else 1)
  }

  /** The tables that n pages of the image need and the task does not have. */
  ghost function TablesWanted(use: seq<Use<Task>>, t: Task, va: nat, n: nat): nat {
    if n == 0 then 0 else TablesWanted(use, t, va, n - 1) + NewTables(use, t, va, n - 1)
  }

  lemma {:induction false} WantedGrows(use: seq<Use<Task>>, t: Task, va: nat, n: nat, m: nat)
    requires n <= m
    ensures TablesWanted(use, t, va, n) <= TablesWanted(use, t, va, m)
  {
    hide NewTables;
    if n < m {
      WantedGrows(use, t, va, n, m - 1);
    }
  }

  /** There are frames for n pages of the image, and heap pages for the tables they need. */
  ghost predicate Enough(mem: Memory, t: Task, va: nat, n: nat)
    reads mem`nextFree, mem`owner, mem`use, mem.heapMap
  {
    mem.FramesLeft() >= n && mem.FreePages() >= TablesWanted(mem.use, t, va, n)
  }

  /** The task's tables after k pages. */
  ghost predicate Grown(use0: seq<Use<Task>>, use: seq<Use<Task>>, t: Task, va: nat, k: nat) {
    forall l, p :: 1 <= l <= 3 && 0 <= p < IPA_PAGES ==>
      (Has(use, t, l, p) <==> Has(use0, t, l, p) || exists i :: 0 <= i < k && SameBlock(l, p, ImagePage(va, i)))
  }

  /** What page k takes from the heap is what was counted for it. */
  lemma MissingIsNew(use0: seq<Use<Task>>, use: seq<Use<Task>>, t: Task, va: nat, k: nat)
    requires Grown(use0, use, t, va, k)
    ensures Missing(use, t, ImagePage(va, k)) == NewTables(use0, t, va, k)
  {
    assert ImagePage(va, k) < IPA_PAGES;
    hide Has, SameBlock, ImagePage;
  }

  lemma GrownMore(use0: seq<Use<Task>>, use1: seq<Use<Task>>, use2: seq<Use<Task>>, t: Task, va: nat, k: nat)
    requires Grown(use0, use1, t, va, k) && AddedAll(use1, use2, t, ImagePage(va, k))
    ensures Grown(use0, use2, t, va, k + 1)
  {
    hide Has, SameBlock, ImagePage;
    forall l, p | 1 <= l <= 3 && 0 <= p < IPA_PAGES
      ensures Has(use2, t, l, p) <==>
              Has(use0, t, l, p) || exists i :: 0 <= i < k + 1 && SameBlock(l, p, ImagePage(va, i))
    {
      assert Has(use2, t, l, p) <==> Has(use1, t, l, p) || SameBlock(l, p, ImagePage(va, k));
    }
  }

  // The load.

  /** What a load starts from. */
  datatype Before = Before(pages: nat, loaded: nat, bytes: seq<nat>, view: map<nat, nat>, owner: seq<Option<Holder>>,
                           use: seq<Use<Task>>, frames: nat, free: nat, transfers: nat)

  ghost function Now(mem: Memory, blk: Blk.VirtioBlk, t: Task): Before
    reads mem`nextFree, mem`owner, mem`use, mem.heapMap, mem.user, t`pages, t`loadedPages, t`view, blk`transfers
  {
    Before(t.pages, t.loadedPages, mem.user[..], t.view, mem.owner, mem.use, mem.FramesLeft(), mem.FreePages(),
           blk.transfers)
  }

  /** What k pages have taken. */
  ghost predicate Spent(mem: Memory, t: Task, va: nat, k: nat, b: Before)
    reads mem`nextFree, mem`owner, mem`use, mem.heapMap, t`pages, t`loadedPages
  {
    && t.pages == b.pages + k && t.loadedPages == b.loaded + k && mem.FramesLeft() + k == b.frames
    && mem.FreePages() + TablesWanted(b.use, t, va, k) == b.free && Grown(b.use, mem.use, t, va, k)
  }

  /** Before each page of the image. */
  ghost predicate Loading(mem: Memory, blk: Blk.VirtioBlk, t: Task, va: nat, cur: nat, sector: nat, remains: nat,
                          frames: seq<nat>, b: Before)
    reads mem`nextFree, mem`owner, mem`use, mem.heapMap, mem.user, t`pages, t`loadedPages, t`view
    reads blk`disk, blk`transfers
  {
    && sector + remains == Blk.Sectors(blk.config) && cur < Bits.WORD && PageOf(cur) == ImagePage(va, |frames|)
    && (remains > 0 ==> sector == SECTORS_PER_PAGE * |frames|) && |frames| == PageCount(sector)
    && blk.transfers == b.transfers + sector && !Fails(blk.oracle, b.transfers, blk.transfers)
    && Blk.Sectors(blk.config) <= |blk.disk| && Blk.DiskOk(blk.disk)
    && Progress(mem, t, va, blk.disk, Blk.Sectors(blk.config), frames, b.bytes, b.view, b.owner)
    && Spent(mem, t, va, |frames|, b)
  }

  /**
   LoaderLoadFile: on success the guest finds the whole image behind the addresses from
   va, rounded down to a page, on; its other addresses and all other frames are as
   before, and exactly one fresh frame was used for every eight sectors begun. It succeeds
   exactly when there are frames for the image and heap pages for the tables it lacks and
   the device fails none of the transfers.
   */
  method LoadFile(mem: Memory, blk: Blk.VirtioBlk, t: Task, va: nat) returns (r: LoadResult, ghost frames: seq<nat>)
    requires mem.Valid() && t in mem.tasks && va < Bits.WORD && blk.Quiet() && Apart(mem, blk)
    modifies mem`use, mem`nextFree, mem`owner, mem.heapMap, mem.heap, mem.userMap, mem.user, t
    modifies blk, blk.descs, blk.availRing, blk.usedRing, blk.data
    ensures !r.Panicked? ==> mem.Valid() && blk.Quiet() && blk.disk == old(blk.disk)
    ensures r.Loaded? <==>
            old(Enough(mem, t, va, PageCount(Blk.Sectors(blk.config)))) &&
            !Fails(blk.oracle, old(blk.transfers), old(blk.transfers) + Blk.Sectors(blk.config))
    ensures r.ReadFailed? ==> Fails(blk.oracle, old(blk.transfers), old(blk.transfers) + Blk.Sectors(blk.config))
    ensures r.Panicked? ==> !old(Enough(mem, t, va, PageCount(Blk.Sectors(blk.config))))
    ensures r.Loaded? ==>
              Progress(mem, t, va, blk.disk, Blk.Sectors(blk.config), frames,
                       old(mem.user[..]), old(t.view), old(mem.owner))
    ensures r.Loaded? ==> |frames| == PageCount(Blk.Sectors(blk.config))
    ensures r.Loaded? ==> Spent(mem, t, va, |frames|, old(Now(mem, blk, t)))
    ensures r.Loaded? ==> t.pageFaults == old(t.pageFaults) && t.faults == old(t.faults)
    ensures r.Loaded? ==> t.devicePages == old(t.devicePages)
    ensures r.Loaded? && old(mem.NoneLost()) && AllFresh(old(t.view), va, PageCount(Blk.Sectors(blk.config))) ==>
              mem.NoneLost() && t.remaps == old(t.remaps)
    ensures old(t.pageTable) != 0 ==> t.pageTable == old(t.pageTable)
  {
    hide Loading, Spent, TablesWanted, Fails, Bits.And, Memory.HeapValid, Memory.AllWalk, Memory.Books;
    assert mem.Layout();
    hide Memory.Valid, PageOf, PageCount, NextAddr, Apart, Blk.VirtioBlk.Quiet, Memory.NoneLost, AllFresh, ImagePage;
    var remains: nat := Blk.Sectors(blk.config);
    var sector: nat, cur: nat := 0, Bits.And(va, PAGE_MASK);
    frames := [];
    ghost var b, disk0 := Now(mem, blk, t), blk.disk;
    ghost var clean := mem.NoneLost() && AllFresh(t.view, va, PageCount(Blk.Sectors(blk.config)));
    Start(mem, blk, t, va, cur);
    while remains > 0
      invariant mem.Valid() && blk.Quiet() && blk.disk == disk0
      invariant Loading(mem, blk, t, va, cur, sector, remains, frames, b)
      invariant t.pageFaults == old(t.pageFaults) && t.faults == old(t.faults) && t.devicePages == old(t.devicePages)
      invariant clean ==> mem.NoneLost() && t.remaps == old(t.remaps)
      invariant old(t.pageTable) != 0 ==> t.pageTable == old(t.pageTable)
    {
      if clean {
        NotYet(mem, blk, t, va, cur, sector, remains, frames, b);
      }
      var page, done;
      ghost var u;
      page, u, done := LoadNext(mem, blk, t, va, cur, sector, remains, frames, b);
      if done.None? {
        return if page.At? then ReadFailed else Panicked, frames;
      }
      remains := remains - done.value;
      sector := sector + done.value;
      cur := NextAddr(cur);
      frames := frames + [u];
    }
    Finish(mem, blk, t, va, cur, sector, frames, b);
    r := Loaded;
  }

  /** None of the image's pages is mapped. */
  ghost predicate AllFresh(view: map<nat, nat>, va: nat, count: nat) {
    forall k :: 0 <= k < count ==> ImagePage(va, k) !in view
  }

  lemma NotYet(mem: Memory, blk: Blk.VirtioBlk, t: Task, va: nat, cur: nat, sector: nat, remains: nat,
               frames: seq<nat>, b: Before)
    requires Loading(mem, blk, t, va, cur, sector, remains, frames, b) && remains > 0
    requires AllFresh(b.view, va, PageCount(Blk.Sectors(blk.config)))
    ensures ImagePage(va, |frames|) !in t.view
  {
    hide ImagePage, Holds, OthersKept, PageOf, Blk.DiskOk, Spent, Fails;
    var k := |frames|;
    assert k < PageCount(Blk.Sectors(blk.config)) < IPA_PAGES;
    forall i | 0 <= i < k ensures ImagePage(va, i) != ImagePage(va, k) {
      PagesDiffer(va, i, k);
    }
    assert Lookup(t.view, ImagePage(va, k)) == Lookup(b.view, ImagePage(va, k));
  }

  lemma Start(mem: Memory, blk: Blk.VirtioBlk, t: Task, va: nat, cur: nat)
    requires mem.Valid() && blk.Quiet() && va < Bits.WORD && cur == Bits.And(va, PAGE_MASK)
    ensures Loading(mem, blk, t, va, cur, 0, Blk.Sectors(blk.config), [], Now(mem, blk, t))
    ensures cur < Bits.WORD
  {
    hide Bits.And, Has, Memory.FramesLeft, Memory.FreePages;
    MaskSame(va);
  }

  lemma Finish(mem: Memory, blk: Blk.VirtioBlk, t: Task, va: nat, cur: nat, sector: nat, frames: seq<nat>, b: Before)
    requires Loading(mem, blk, t, va, cur, sector, 0, frames, b)
    ensures Blk.Sectors(blk.config) <= |blk.disk| && Blk.DiskOk(blk.disk)
    ensures Progress(mem, t, va, blk.disk, Blk.Sectors(blk.config), frames, b.bytes, b.view, b.owner)
    ensures |frames| == PageCount(Blk.Sectors(blk.config)) && Spent(mem, t, va, |frames|, b)
    ensures !Fails(blk.oracle, b.transfers, b.transfers + Blk.Sectors(blk.config))
    ensures b.frames >= |frames| && b.free >= TablesWanted(b.use, t, va, |frames|)
  {
    hide Fails;
  }

  /** What Loading says, and what the next page may take. */
  lemma Unfold(mem: Memory, blk: Blk.VirtioBlk, t: Task, va: nat, cur: nat, sector: nat, remains: nat,
               frames: seq<nat>, b: Before)
    requires Loading(mem, blk, t, va, cur, sector, remains, frames, b) && remains > 0
    ensures sector + remains == Blk.Sectors(blk.config) && cur < Bits.WORD && PageOf(cur) == ImagePage(va, |frames|)
    ensures sector == SECTORS_PER_PAGE * |frames| && |frames| < PageCount(Blk.Sectors(blk.config)) < IPA_PAGES
    ensures Blk.Sectors(blk.config) <= |blk.disk| && Blk.DiskOk(blk.disk)
    ensures ProgressIn(mem, mem.user[..], t.view, mem.owner, t, va, blk.disk, Blk.Sectors(blk.config), frames,
                       b.bytes, b.view, b.owner)
    ensures blk.transfers == b.transfers + sector && !Fails(blk.oracle, b.transfers, blk.transfers)
    ensures t.pages == b.pages + |frames| && t.loadedPages == b.loaded + |frames|
    ensures mem.FramesLeft() + |frames| == b.frames
    ensures mem.FreePages() + TablesWanted(b.use, t, va, |frames|) == b.free && Grown(b.use, mem.use, t, va, |frames|)
    ensures TablesWanted(b.use, t, va, |frames|) + Missing(mem.use, t, PageOf(cur))
            <= TablesWanted(b.use, t, va, PageCount(Blk.Sectors(blk.config)))
  {
    hide Fails, ProgressIn, Grown, NewTables, Missing, ImagePage, PageOf, Blk.DiskOk;
    MissingIsNew(b.use, mem.use, t, va, |frames|);
    WantedGrows(b.use, t, va, |frames| + 1, PageCount(Blk.Sectors(blk.config)));
  }

  lemma SpentAdds(mem: Memory, t: Task, va: nat, k: nat, b: Before, cur: nat, use1: seq<Use<Task>>,
                  left: nat, free: nat)
    requires t.pages == b.pages + k + 1 && t.loadedPages == b.loaded + k + 1 && PageOf(cur) == ImagePage(va, k)
    requires left + k == b.frames && free + TablesWanted(b.use, t, va, k) == b.free && Grown(b.use, use1, t, va, k)
    requires mem.Took(t, cur, left, free, use1)
    ensures Spent(mem, t, va, k + 1, b)
  {
    hide Grown, AddedAll, NewTables, Missing, ImagePage, PageOf;
    MissingIsNew(b.use, use1, t, va, k);
    GrownMore(b.use, use1, mem.use, t, va, k);
  }

  lemma LoadingAdds(mem: Memory, blk: Blk.VirtioBlk, t: Task, va: nat, cur: nat, sector: nat, remains: nat,
                    frames: seq<nat>, b: Before, u: nat)
    requires remains > 0 && sector + remains == Blk.Sectors(blk.config) && sector == SECTORS_PER_PAGE * |frames|
    requires cur < Bits.WORD && PageOf(cur) == ImagePage(va, |frames|)
    requires Blk.Sectors(blk.config) <= |blk.disk| && Blk.DiskOk(blk.disk)
    requires Progress(mem, t, va, blk.disk, Blk.Sectors(blk.config), frames + [u], b.bytes, b.view, b.owner)
    requires blk.transfers == b.transfers + sector + AtOnce(remains)
    requires !Fails(blk.oracle, b.transfers, b.transfers + sector)
    requires !Fails(blk.oracle, b.transfers + sector, blk.transfers)
    requires Spent(mem, t, va, |frames| + 1, b)
    ensures Loading(mem, blk, t, va, NextAddr(cur), sector + AtOnce(remains), remains - AtOnce(remains),
                    frames + [u], b)
  {
    hide Progress, Spent, NextAddr, PageOf, ImagePage, Blk.DiskOk;
    NextPage(va, cur, |frames|);
    assert PageCount(SECTORS_PER_PAGE * |frames| + AtOnce(remains)) == |frames| + 1;
  }

  /** One round of the outer loop: map a page and fill it. */
  method LoadNext(mem: Memory, blk: Blk.VirtioBlk, t: Task, va: nat, cur: nat, sector: nat, remains: nat,
                  ghost frames: seq<nat>, ghost b: Before)
    returns (page: Alloc, ghost u: nat, done: Option<nat>)
    requires mem.Valid() && t in mem.tasks && blk.Quiet() && Apart(mem, blk) && remains > 0
    requires Loading(mem, blk, t, va, cur, sector, remains, frames, b)
    modifies mem`use, mem`nextFree, mem`owner, mem.heapMap, mem.heap, mem.userMap, mem.user, t
    modifies blk, blk.descs, blk.availRing, blk.usedRing, blk.data
    ensures page.At? ==> mem.Valid() && blk.Quiet() && blk.disk == old(blk.disk)
    ensures done.Some? ==> page.At? && 0 < done.value == AtOnce(remains)
    ensures done.Some? ==>
              Loading(mem, blk, t, va, NextAddr(cur), sector + done.value, remains - done.value, frames + [u], b)
    ensures page.At? && done.None? ==> Fails(blk.oracle, b.transfers, b.transfers + Blk.Sectors(blk.config))
    ensures !page.At? ==>
              b.frames < PageCount(Blk.Sectors(blk.config)) ||
              b.free < TablesWanted(b.use, t, va, PageCount(Blk.Sectors(blk.config)))
    ensures page.At? ==> t.pageFaults == old(t.pageFaults) && t.faults == old(t.faults)
    ensures page.At? ==> t.devicePages == old(t.devicePages)
    ensures done.Some? && old(mem.NoneLost()) && ImagePage(va, |frames|) !in old(t.view) ==>
              mem.NoneLost() && t.remaps == old(t.remaps)
    ensures old(t.pageTable) != 0 ==> t.pageTable == old(t.pageTable)
  {
    hide *;
    LaidOut(mem);
    Unfold(mem, blk, t, va, cur, sector, remains, frames, b);
    ghost var before: seq<nat>, view1, owner1, use1 := mem.user[..], t.view, mem.owner, mem.use;
    ghost var left, free := mem.FramesLeft(), mem.FreePages();
    page, u := mem.PageMap(t, cur);
    done := None;
    if page.At? {
      SpentAdds(mem, t, va, |frames|, b, cur, use1, left, free);
      SameFrames(mem, before, u);
      done := FillPage(mem, blk, t, va, cur, sector, remains, page.addr, frames, b, u, before, view1, owner1);
    }
  }

  /**
   The page just mapped for the image, in frame u, is filled; before, view1 and owner1 are as
   before it was mapped.
   */
  method FillPage(mem: Memory, blk: Blk.VirtioBlk, t: Task, va: nat, cur: nat, sector: nat, remains: nat, addr: nat,
                  ghost frames: seq<nat>, ghost b: Before, ghost u: nat,
                  ghost before: seq<nat>, ghost view1: map<nat, nat>, ghost owner1: seq<Option<Holder>>)
    returns (done: Option<nat>)
    requires mem.Layout() && blk.Quiet() && Apart(mem, blk) && remains > 0
    requires sector + remains == Blk.Sectors(blk.config) && sector == SECTORS_PER_PAGE * |frames|
    requires |frames| < IPA_PAGES && cur < Bits.WORD && PageOf(cur) == ImagePage(va, |frames|)
    requires mem.Mapped(t, cur, u, addr, view1, owner1) && mem.FrameZero(u) && SameBut(mem.user[..], before, u)
    requires Blk.Sectors(blk.config) <= |blk.disk| && Blk.DiskOk(blk.disk)
    requires ProgressIn(mem, before, view1, owner1, t, va, blk.disk, Blk.Sectors(blk.config), frames,
                        b.bytes, b.view, b.owner)
    requires blk.transfers == b.transfers + sector && !Fails(blk.oracle, b.transfers, blk.transfers)
    requires Spent(mem, t, va, |frames| + 1, b)
    modifies mem.user, blk, blk.descs, blk.availRing, blk.usedRing, blk.data
    ensures blk.Quiet() && blk.disk == old(blk.disk) && (old(mem.Valid()) ==> mem.Valid())
    ensures done.Some? ==> 0 < done.value == AtOnce(remains)
    ensures done.Some? ==>
              Loading(mem, blk, t, va, NextAddr(cur), sector + done.value, remains - done.value, frames + [u], b)
    ensures done.None? ==> Fails(blk.oracle, b.transfers, b.transfers + Blk.Sectors(blk.config))
  {
    hide Filled, Holds, ImagePage, PageOf, ProgressIn, FrameHolds, Memory.FrameZero, Blk.DiskOk, Fails, Loading, Spent;
    hide NextAddr, Blk.VirtioBlk.Quiet, Memory.Valid;
    ghost var mid: seq<nat> := mem.user[..];
    var ok, count := LoadPage(mem, blk, u, addr - mem.userStart, sector, remains);
    if ok {
      Compose(mem, before, mid, u);
      ProgressAdds(mem, t, va, blk.disk, Blk.Sectors(blk.config), frames, u, cur,
                   before, view1, owner1, b.bytes, b.view, b.owner);
      LoadingAdds(mem, blk, t, va, cur, sector, remains, frames, b, u);
      done := Some(count);
    } else {
      FailsWithin(blk.oracle, b.transfers, b.transfers + sector, b.transfers + sector + AtOnce(remains),
                  b.transfers + Blk.Sectors(blk.config));
      done := None;
    }
  }

  lemma LaidOut(mem: Memory)
    requires mem.Valid()
    ensures mem.Layout()
  {
  }

  lemma SameFrames(mem: Memory, before: seq<nat>, u: nat)
    requires mem.SameOutside(before, u)
    ensures SameBut(mem.user[..], before, u)
  {
  }

  lemma Compose(mem: Memory, before: seq<nat>, mid: seq<nat>, u: nat)
    requires SameBut(mid, before, u) && mem.SameOutside(mid, u)
    ensures SameBut(mem.user[..], before, u)
  {
  }

  lemma ViewGrows(view: map<nat, nat>, mid: map<nat, nat>, view0: map<nat, nat>, va: nat, k: nat, d: nat)
    requires ViewOutside(mid, view0, va, k) && view == mid[ImagePage(va, k) := d]
    ensures ViewOutside(view, view0, va, k + 1)
  {
    hide ImagePage;
    forall p | forall i :: 0 <= i < k + 1 ==> ImagePage(va, i) != p ensures Lookup(view, p) == Lookup(view0, p) {
      assert ImagePage(va, k) != p;
    }
  }

  /** Where byte x of an image that is loaded at va lies: va is rounded down to a page and counts on in 64 bits. */
  function ImageAddress(va: nat, x: nat): nat {
    (va / 0x1000 * 0x1000 + x) % Bits.WORD
  }

  lemma AddressParts(va: nat, x: nat)
    ensures PageOf(ImageAddress(va, x)) == ImagePage(va, x / 0x1000)
    ensures ImageAddress(va, x) % 0x1000 == x % 0x1000
  {
    var q, r := va / 0x1000 + x / 0x1000, x % 0x1000;
    var pages: nat := 0x10_0000_0000_0000;
    var h, l := q / pages, q % pages;
    Bits.Quotient(va / 0x1000 * 0x1000 + x, Bits.WORD, h, 0x1000 * l + r);
    Bits.Quotient(0x1000 * l + r, 0x1000, l, r);
    Bits.Quotient(q, IPA_PAGES, h * (pages / IPA_PAGES) + l / IPA_PAGES, l % IPA_PAGES);
  }

  /**
   What the hardware finds after a successful load: at the address of every byte of the image
   a frame that holds the disk's byte, or zero after the image's end, exactly if the address is
   in its reach.
   */
  lemma ImageVisible(mem: Memory, t: Task, va: nat, disk: seq<seq<nat>>, n: nat, frames: seq<nat>, x: nat,
                     bytes0: seq<nat>, view0: map<nat, nat>, owner0: seq<Option<Holder>>) returns (u: nat)
    requires mem.Valid() && t in mem.tasks && n <= |disk| && Blk.DiskOk(disk)
    requires Progress(mem, t, va, disk, n, frames, bytes0, view0, owner0)
    requires |frames| == PageCount(n) && x < FRAME_BYTES * PageCount(n)
    ensures u < USER_PAGES && mem.owner[u] == Some(Holder(t, PageOf(ImageAddress(va, x))))
    ensures TableLeaf(mem, t, PageOf(ImageAddress(va, x))) == Some(mem.UserAddr(u) + PTE_DRAM)
    ensures Translation(mem, t, ImageAddress(va, x) / 0x1000) ==
            if ImageAddress(va, x) < 0x10_0000_0000 then Some(mem.UserAddr(u) + PTE_DRAM) else None
    ensures mem.user[FRAME_BYTES * u + x % FRAME_BYTES] ==
            if x < Blk.SECTOR_SIZE * n then disk[x / Blk.SECTOR_SIZE][x % Blk.SECTOR_SIZE] else 0
  {
    hide ImageByte, ImagePage, ImageAddress, Memory.Valid, TableLeaf, Translation;
    AddressParts(va, x);
    u := frames[x / FRAME_BYTES];
    FrameByte(mem, disk, n, u, x);
    Reached(mem, t, PageOf(ImageAddress(va, x)));
    Reached(mem, t, ImageAddress(va, x) / 0x1000);
  }

  /** The byte of the frame of page x / FRAME_BYTES that belongs to offset x. */
  lemma FrameByte(mem: Memory, disk: seq<seq<nat>>, n: nat, u: nat, x: nat)
    requires n <= |disk| && Blk.DiskOk(disk) && u < USER_PAGES
    requires Filled(mem.user[..], FRAME_BYTES * u, FRAME_BYTES, disk, n, FRAME_BYTES * (x / FRAME_BYTES))
    ensures FRAME_BYTES * u + x % FRAME_BYTES < mem.user.Length
    ensures mem.user[FRAME_BYTES * u + x % FRAME_BYTES] ==
            if x < Blk.SECTOR_SIZE * n then disk[x / Blk.SECTOR_SIZE][x % Blk.SECTOR_SIZE] else 0
  {
    hide ImageByte;
    var at := FRAME_BYTES * u + x % FRAME_BYTES;
    assert mem.user[..][at] == ImageByte(disk, n, FRAME_BYTES * (x / FRAME_BYTES) + (at - FRAME_BYTES * u));
    ByteOf(disk, n, x);
  }

  /** All n pages of an image are in reach if and only if it ends below the hardware's input size. */
  lemma AllInReach(va: nat, n: nat)
    requires va < Bits.WORD
    ensures (forall x {:trigger ImageAddress(va, x)} :: 0 <= x < 0x1000 * n ==> ImageAddress(va, x) < 0x10_0000_0000)
            <==> n == 0 || va / 0x1000 + n <= 0x100_0000
  {
    var start := va / 0x1000 * 0x1000;
    if n > 0 {
      assert ImageAddress(va, 0) == start;
      if start < IPA_LIMIT && va / 0x1000 + n > S2_PAGES {
        assert ImageAddress(va, IPA_LIMIT - start) == IPA_LIMIT;
      }
    }
  }

  lemma ByteOf(disk: seq<seq<nat>>, n: nat, offset: nat)
    requires n <= |disk| && Blk.DiskOk(disk)
    ensures ImageByte(disk, n, offset) ==
            if offset < Blk.SECTOR_SIZE * n then disk[offset / Blk.SECTOR_SIZE][offset % Blk.SECTOR_SIZE] else 0
  {
  }
}
