/**
 The virtio-blk driver (src/drivers/virtio/virtio-blk.cc) against a device that runs at
 the same time. Driver and device share the descriptor table, the two rings and one
 request buffer (sections 2.7 and 5.2 of VIRTIO 1.3). Between any two accesses of the
 driver the device takes as many of its own steps as the schedule gives it; nothing is
 known about the schedule.
 */
module VirtioBlk {
  const QUEUE_SIZE: nat := 16
  const SECTOR_SIZE: nat := 512
  const U16: nat := 0x1_0000
  const U32: nat := 0x1_0000_0000

  const DESC_F_NEXT: nat := 1
  const DESC_F_WRITE: nat := 2
  const BLK_T_IN: nat := 0
  const BLK_T_OUT: nat := 1
  const STATUS_OK: nat := 0
  const STATUS_IOERR: nat := 1

  const DATA_OFFSET: nat := 16      // offsetof(VirtioBlkReq, data)
  const STATUS_OFFSET: nat := 528   // offsetof(VirtioBlkReq, status)

  datatype Desc = Desc(addr: nat, len: nat, flags: nat, next: nat)

  /** What the device is doing; each phase ends with one shared-memory access. */
  datatype Phase = Idle | Taken(head: nat) | Moved(head: nat, status: nat) | Answered(head: nat) | Posted

  /**
   What is not known in advance: how many steps the device takes at each opportunity, by
   time; which transfers it fails, and whether a failed write reached the disk all the
   same, by the number of the transfer.
   */
  datatype Oracle = Oracle(steps: nat -> nat, fails: nat -> bool, torn: nat -> bool)

  /** A request as its caller sees it, with the disk, the index and the number of transfers it started from. */
  datatype Job = Job(isWrite: bool, sector: nat, bytes: seq<nat>, disk0: seq<seq<nat>>, index0: nat, number: nat)

  /** GetDiskCapacity / sector size: the byte count is computed in 32 bits. */
  function Sectors(config: nat): (n: nat)
    ensures n == config % 0x80_0000 <= config
  {
    var bytes := config * SECTOR_SIZE % U32;
    CapacityWraps(config);
    bytes / SECTOR_SIZE
  }

  lemma CapacityWraps(config: nat)
    ensures config * SECTOR_SIZE % U32 / SECTOR_SIZE == config % 0x80_0000
  {
    var q, r := config / 0x80_0000, config % 0x80_0000;
    assert config * SECTOR_SIZE == q * U32 + r * SECTOR_SIZE;
    assert config * SECTOR_SIZE % U32 == r * SECTOR_SIZE;
  }

  /** The whole disk can be addressed if and only if it is smaller than 4 GiB. */
  lemma WholeDiskReachable(config: nat)
    ensures Sectors(config) == config <==> config * SECTOR_SIZE < U32
  {
  }

  ghost predicate DiskOk(disk: seq<seq<nat>>) {
    forall s :: 0 <= s < |disk| ==> |disk[s]| == SECTOR_SIZE
  }

  ghost predicate JobOk(job: Job) {
    job.sector < |job.disk0| && DiskOk(job.disk0) && |job.bytes| == SECTOR_SIZE && job.index0 < U16
  }

  /** What a request that ended with a status may leave on the disk and in its buffer. */
  ghost predicate Outcome(job: Job, status: nat, failed: bool, disk: seq<seq<nat>>, data: seq<nat>)
    requires JobOk(job)
  {
    && (status == STATUS_OK <==> !failed)
    && if failed then disk == job.disk0 || (job.isWrite && disk == job.disk0[job.sector := job.bytes])
       else if job.isWrite then disk == job.disk0[job.sector := job.bytes]
       else disk == job.disk0 && data == job.disk0[job.sector]
  }

  class VirtioBlk {
    const config: nat            // DEVICE_CONFIG_SPACE0: the capacity in sectors
    const reqAddr: nat
    const oracle: Oracle
    // Shared memory.
    const descs: array<Desc>
    const availRing: array<nat>
    const usedRing: array<nat>
    const data: array<nat>       // blk_req->data
    var availIndex: nat
    var usedIndex: nat
    var reqType: nat
    var reqSector: nat
    var reqStatus: nat
    // The driver.
    var lastUsedIndex: nat
    ghost var job: Job
    // The device.
    var disk: seq<seq<nat>>
    var lastAvail: nat
    var phase: Phase
    var time: nat
    var transfers: nat           // transfers the device has done

    ghost predicate Layout() {
      && descs.Length == QUEUE_SIZE && availRing.Length == QUEUE_SIZE && usedRing.Length == QUEUE_SIZE
      && data.Length == SECTOR_SIZE
      && availRing != usedRing && availRing != data && usedRing != data
    }

    ghost predicate Valid()
      reads this
    {
      && Layout() && |disk| == config && DiskOk(disk)
      && availIndex < U16 && usedIndex < U16 && lastAvail < U16 && lastUsedIndex < U16
      && (phase.Taken? || phase.Moved? || phase.Answered? ==> phase.head < QUEUE_SIZE)
    }

    /** No request is in flight and all four indices agree. */
    ghost predicate Quiet()
      reads this
    {
      Valid() && phase == Idle && availIndex == lastAvail == usedIndex == lastUsedIndex
    }

    /** The device had nothing to do and left all it could touch alone. */
    ghost predicate Idled(disk0: seq<seq<nat>>, data0: seq<nat>, status0: nat, transfers0: nat)
      reads this, data
    {
      Quiet() && disk == disk0 && data[..] == data0 && reqStatus == status0 && transfers == transfers0
    }

    /** The chain of three descriptors for a request. */
    ghost predicate ChainReady(isWrite: bool)
      requires Layout()
      reads descs
    {
      && descs[0] == Desc(reqAddr, 16, DESC_F_NEXT, 1)
      && descs[1] == Desc(reqAddr + DATA_OFFSET, SECTOR_SIZE,
                          if isWrite then DESC_F_NEXT else DESC_F_WRITE + DESC_F_NEXT, 2)
      && descs[2].addr == reqAddr + STATUS_OFFSET && descs[2].len == 1 && descs[2].flags == DESC_F_WRITE
    }

    /** Steps the device still needs for the request in flight; 0 when it has answered. */
    ghost function Left(): nat
      reads this`phase, this`lastAvail, this`availIndex
    {
      match phase
      case Idle => if lastAvail == availIndex then 0 else 5
      case Taken(_) => 4
      case Moved(_, _) => 3
      case Answered(_) => 2
      case Posted => 1
    }

    /** How far the device is with the entry it works on. */
    ghost function Stage(): nat
      reads this`phase
    {
      match phase
      case Idle => 0
      case Taken(_) => 1
      case Moved(_, _) => 2
      case Answered(_) => 3
      case Posted => 4
    }

    /** Entries the device still takes from the ring, the one it works on included. */
    function Outstanding(): nat
      reads this`availIndex, this`lastAvail
    {
      (availIndex - lastAvail) % U16
    }

    /** Entries that the driver never offered, by its own count of requests. */
    ghost function Stale(): nat
      reads this`availIndex, this`lastUsedIndex
    {
      (availIndex - lastUsedIndex) % U16
    }

    /** The device posts what it takes. */
    ghost predicate InStep()
      reads this
    {
      Valid() && usedIndex == lastAvail
    }

    /** The transfer of the request in flight fails. */
    ghost predicate JobFails()
      reads this`job
    {
      oracle.fails(job.number)
    }

    /** The descriptors, the ring entry and the request buffer describe the job. */
    ghost predicate Described()
      requires Layout()
      reads this`job, this`reqType, this`reqSector, descs
    {
      && ChainReady(job.isWrite)
      && reqType == (if job.isWrite then BLK_T_OUT else BLK_T_IN) && reqSector == job.sector
    }

    /** One request is in flight, or has been answered and not yet collected. */
    ghost predicate InFlight()
      reads this, descs, availRing, data
    {
      && Valid() && JobOk(job) && |job.disk0| == config && Described()
      && availIndex == (job.index0 + 1) % U16
      && if Left() == 0 then
           lastAvail == usedIndex == availIndex && transfers == job.number + 1 &&
           Outcome(job, reqStatus, JobFails(), disk, data[..])
         else
           && lastAvail == usedIndex == job.index0 && availRing[lastAvail % QUEUE_SIZE] == 0
           && match phase
              case Idle => transfers == job.number && disk == job.disk0 && (job.isWrite ==> data[..] == job.bytes)
              case Taken(head) =>
                head == 0 && transfers == job.number && disk == job.disk0 && (job.isWrite ==> data[..] == job.bytes)
              case Moved(head, status) =>
                head == 0 && transfers == job.number + 1 && Outcome(job, status, JobFails(), disk, data[..])
              case Answered(head) =>
                head == 0 && transfers == job.number + 1 && Outcome(job, reqStatus, JobFails(), disk, data[..])
              case Posted => transfers == job.number + 1 && Outcome(job, reqStatus, JobFails(), disk, data[..])
    }

    /**
     However many stale entries there are: whenever the driver sees its last request answered,
     the device still takes that many.
     */
    lemma AnsweredTooEarly()
      requires InStep() && usedIndex == lastUsedIndex
      ensures Outstanding() == Stale()
    {
    }

    /**
     When the device has taken all entries, the driver sees its last request answered if and
     only if none was stale.
     */
    lemma WaitsForever()
      requires InStep() && Outstanding() == 0
      ensures usedIndex == lastUsedIndex <==> Stale() == 0
    {
    }

    /** In every state the protocol reaches at most one request is outstanding, also when the indices wrap. */
    lemma AtMostOneInFlight()
      requires Quiet() || InFlight()
      ensures (availIndex - usedIndex) % U16 <= 1
      ensures (availIndex - usedIndex) % U16 == 1 <==> Left() > 0
    {
    }

    /**
     Init, the first one or a later one: the queue lies in memory that was just allocated and
     holds whatever it holds. The driver clears used.index and its own counter and resets the
     device, but leaves the avail.index it finds. A later Init does the same on other memory,
     with the disk as the last one left it.
     */
    constructor (config: nat, disk: seq<seq<nat>>, oracle: Oracle, reqAddr: nat, descs: array<Desc>,
                 availRing: array<nat>, usedRing: array<nat>, data: array<nat>, foundAvailIndex: nat)
      requires |disk| == config && DiskOk(disk) && foundAvailIndex < U16
      requires descs.Length == QUEUE_SIZE && availRing.Length == QUEUE_SIZE && usedRing.Length == QUEUE_SIZE
      requires data.Length == SECTOR_SIZE && availRing != usedRing && availRing != data && usedRing != data
      ensures Valid() && this.config == config && this.disk == disk && this.oracle == oracle
      ensures this.descs == descs && this.availRing == availRing && this.usedRing == usedRing && this.data == data
      ensures InStep() && phase == Idle && transfers == usedIndex == lastUsedIndex == 0 && Stale() == foundAvailIndex
      ensures foundAvailIndex == 0 ==> Quiet()
    {
      this.config, this.oracle, this.reqAddr := config, oracle, reqAddr;
      this.descs, this.availRing, this.usedRing, this.data := descs, availRing, usedRing, data;
      availIndex, usedIndex, lastUsedIndex := foundAvailIndex, 0, 0;
      reqType, reqSector, reqStatus := 0, 0, 0;
      this.disk := disk;
      lastAvail, phase, time, transfers := 0, Idle, 0, 0;
    }

    // The device, which knows the values of the standard, not the driver's names for them.

    /** What the device does with the request it finds at the head of a chain. */
    method Transfer(head: nat) returns (status: nat)
      requires Valid() && head < QUEUE_SIZE
      modifies this`disk, this`transfers, data
      ensures transfers == old(transfers) + 1
      ensures |disk| == config && DiskOk(disk)
      ensures old(InFlight() && phase == Taken(head)) ==> Outcome(job, status, JobFails(), disk, data[..])
    {
      var d0 := descs[head];
      var d1 := descs[d0.next % 16];
      status := 1;
      var number := transfers;
      transfers := transfers + 1;
      if d0.addr == reqAddr && d0.len == 16 && d0.flags == 1
         && d1.addr == reqAddr + 16 && d1.len == 512 && reqSector < |disk|
      {
        if reqType == 0 && d1.flags == 3 {
          if !oracle.fails(number) {
            forall i | 0 <= i < 512 {
              data[i] := disk[reqSector][i];
            }
            assert data[..] == disk[reqSector];
            status := 0;
          }
        } else if reqType == 1 && d1.flags == 1 {
          if !oracle.fails(number) {
            status := 0;
          }
          if status == 0 || oracle.torn(number) {
            disk := disk[reqSector := data[..]];
          }
        }
      }
    }

    /** The status goes where the third descriptor of the chain says. */
    method WriteStatus(head: nat, status: nat)
      requires Valid() && head < QUEUE_SIZE
      modifies this`reqStatus
      ensures old(Described()) && head == 0 ==> reqStatus == status
    {
      var d1 := descs[descs[head].next % 16];
      var d2 := descs[d1.next % 16];
      if d2.addr == reqAddr + 528 && d2.len == 1 && d2.flags == 2 {
        reqStatus := status;
      }
    }

    /** The transfer of the entry taken. */
    method TakenStep(head: nat)
      requires Valid() && phase == Taken(head)
      modifies this`disk, this`phase, this`transfers, data
      ensures Valid() && phase.Moved?
      ensures old(InFlight()) ==> InFlight()
    {
      hide Outcome, DiskOk, JobOk, ChainReady;
      var status := Transfer(head);
      phase := Moved(head, status);
    }

    /** The status is written. */
    method MovedStep(head: nat, status: nat)
      requires Valid() && phase == Moved(head, status)
      modifies this`reqStatus, this`phase
      ensures Valid() && phase == Answered(head)
      ensures old(InFlight()) ==> InFlight()
    {
      hide Outcome, DiskOk, JobOk;
      WriteStatus(head, status);
      phase := Answered(head);
    }

    /** One step of the device; with nothing to do it waits. */
    method DeviceStep()
      requires Valid()
      modifies this`usedIndex, this`reqStatus, this`disk, this`lastAvail, this`phase, this`time, this`transfers
      modifies usedRing, data
      ensures Valid()
      ensures old(InFlight()) ==> InFlight() && Left() == (if old(Left()) == 0 then 0 else old(Left()) - 1)
      ensures old(Quiet()) ==> Idled(old(disk), old(data[..]), old(reqStatus), old(transfers))
      ensures Stage() == if old(phase.Idle? && lastAvail == availIndex) then 0 else (old(Stage()) + 1) % 5
      ensures usedIndex == if old(phase.Posted?) then (old(usedIndex) + 1) % U16 else old(usedIndex)
      ensures lastAvail == if old(phase.Posted?) then (old(lastAvail) + 1) % U16 else old(lastAvail)
    {
      hide Outcome, DiskOk, JobOk, ChainReady, Described;
      time := time + 1;
      match phase {
        case Idle =>
          if lastAvail != availIndex {
            phase := Taken(availRing[lastAvail % 16] % 16);
          }
        case Taken(head) =>
          TakenStep(head);
        case Moved(head, status) =>
          MovedStep(head, status);
        case Answered(head) =>
          usedRing[usedIndex % 16] := head;
          phase := Posted;
        case Posted =>
          usedIndex := (usedIndex + 1) % 0x1_0000;
          lastAvail := (lastAvail + 1) % 0x1_0000;
          phase := Idle;
      }
    }

    /** The device runs for as many steps as the schedule gives it, but at least for some. */
    method Interleave(atLeast: nat)
      requires Valid()
      modifies this`usedIndex, this`reqStatus, this`disk, this`lastAvail, this`phase, this`time, this`transfers
      modifies usedRing, data
      ensures Valid()
      ensures old(InFlight()) ==>
                InFlight() && Left() <= old(Left()) && (old(Left()) > 0 && atLeast > 0 ==> Left() < old(Left()))
      ensures old(Quiet()) ==> Idled(old(disk), old(data[..]), old(reqStatus), old(transfers))
      ensures old(InStep()) ==> InStep()
      ensures oracle.steps(old(time) + 1) + atLeast == 0 ==> usedIndex == old(usedIndex) && phase == old(phase)
    {
      time := time + 1;
      var n := oracle.steps(time) + atLeast;
      var i := 0;
      while i < n
        invariant i <= n && Valid()
        invariant old(InFlight()) ==>
                    InFlight() && Left() <= old(Left()) && (old(Left()) > 0 && i > 0 ==> Left() < old(Left()))
        invariant old(Quiet()) ==> Idled(old(disk), old(data[..]), old(reqStatus), old(transfers))
        invariant old(InStep()) ==> InStep()
        invariant i == 0 ==> usedIndex == old(usedIndex) && phase == old(phase)
      {
        DeviceStep();
        i := i + 1;
      }
    }

    /** Left alone, the device answers the next entry of the ring in five steps. */
    method AnswerEntry()
      requires InStep() && phase == Idle && Outstanding() > 0
      modifies this`usedIndex, this`reqStatus, this`disk, this`lastAvail, this`phase, this`time, this`transfers
      modifies usedRing, data
      ensures InStep() && phase == Idle && usedIndex == (old(usedIndex) + 1) % U16
    {
      hide InFlight, Quiet, Idled, DiskOk;
      var i := 0;
      while i < 5
        invariant i <= 5 && InStep() && Stage() == i % 5
        invariant usedIndex == if i == 5 then (old(usedIndex) + 1) % U16 else old(usedIndex)
      {
        DeviceStep();
        i := i + 1;
      }
    }

    /** The device runs while the driver prepares a request. */
    method RunMeanwhile()
      requires Valid()
      modifies this`usedIndex, this`reqStatus, this`disk, this`lastAvail, this`phase, this`time, this`transfers
      modifies usedRing, data
      ensures Valid() && (old(InStep()) ==> InStep())
      ensures old(Quiet()) ==> Idled(old(disk), old(data[..]), old(reqStatus), old(transfers))
    {
      Interleave(0);
    }

    /** The device runs while it has a request. */
    method RunBusy(atLeast: nat)
      requires InFlight()
      modifies this`usedIndex, this`reqStatus, this`disk, this`lastAvail, this`phase, this`time, this`transfers
      modifies usedRing, data
      ensures InFlight() && Left() <= old(Left()) && (old(Left()) > 0 && atLeast > 0 ==> Left() < old(Left()))
    {
      Interleave(atLeast);
    }

    // The driver.

    /**
     Of the request in flight, once it is counted, it tells whether the device still has
     work to do. With stale entries in the ring it answers for as many entries too few.
     */
    method VirtqIsBusy() returns (busy: bool)
      ensures InFlight() && lastUsedIndex == availIndex ==> (busy <==> Left() > 0)
      ensures Quiet() ==> !busy
      ensures InStep() ==> (busy <==> Outstanding() != Stale())
    {
      busy := lastUsedIndex != usedIndex;
    }

    /** Fill in the request header and the data while the device idles or works on stale entries. */
    method FillRequest(buf: array<nat>, off: nat, sector: nat, isWrite: bool)
      requires Valid() && off + SECTOR_SIZE <= buf.Length && buf !in {data, availRing, usedRing}
      modifies this, usedRing, data
      ensures Valid() && availIndex == old(availIndex) && lastUsedIndex == old(lastUsedIndex)
      ensures old(InStep()) ==> InStep()
      ensures old(Quiet()) ==> Quiet() && disk == old(disk) && transfers == old(transfers)
      ensures reqType == (if isWrite then BLK_T_OUT else BLK_T_IN) && reqSector == sector
      ensures old(Quiet()) && isWrite ==> data[..] == buf[off..off + SECTOR_SIZE]
    {
      hide DiskOk, InFlight;
      reqType := if isWrite then BLK_T_OUT else BLK_T_IN;
      RunMeanwhile();
      reqSector := sector;
      RunMeanwhile();
      if isWrite {
        forall i | 0 <= i < SECTOR_SIZE {
          data[i] := buf[off + i];
        }
      }
      RunMeanwhile();
    }

    /** Chain the three descriptors of a request. */
    method FillDescriptors(isWrite: bool)
      requires Valid()
      modifies this, descs, usedRing, data
      ensures Valid() && availIndex == old(availIndex) && lastUsedIndex == old(lastUsedIndex)
      ensures old(InStep()) ==> InStep()
      ensures old(Quiet()) ==>
                Quiet() && disk == old(disk) && data[..] == old(data[..]) && transfers == old(transfers)
      ensures ChainReady(isWrite) && reqType == old(reqType) && reqSector == old(reqSector)
    {
      hide DiskOk, InFlight;
      descs[0] := Desc(reqAddr, 16, DESC_F_NEXT, 1);
      RunMeanwhile();
      var flags := if isWrite then 0 else DESC_F_WRITE;
      descs[1] := Desc(reqAddr + DATA_OFFSET, SECTOR_SIZE, flags + DESC_F_NEXT, 2);
      RunMeanwhile();
      reqStatus := 0xff;
      descs[2] := Desc(reqAddr + STATUS_OFFSET, 1, DESC_F_WRITE, descs[2].next);
      RunMeanwhile();
    }

    /** The rings and the request are set up for a job. */
    ghost predicate ReadyFor(j: Job)
      requires Layout()
      reads this`disk, this`lastUsedIndex, this`transfers, this`reqType, this`reqSector, descs, data
    {
      && JobOk(j) && j.disk0 == disk && j.index0 == lastUsedIndex && j.number == transfers
      && ChainReady(j.isWrite) && reqType == (if j.isWrite then BLK_T_OUT else BLK_T_IN) && reqSector == j.sector
      && (j.isWrite ==> data[..] == j.bytes)
    }

    /** The ring entry and the index that shows it to the device. */
    method PutEntry(ghost j: Job)
      requires Valid()
      modifies this, availRing, usedRing, data
      ensures Valid() && (old(Quiet() && ReadyFor(j)) ==> InFlight() && job == j)
      ensures old(InStep()) ==> InStep()
      ensures availIndex == (old(availIndex) + 1) % U16 && lastUsedIndex == old(lastUsedIndex)
      ensures (forall n :: oracle.steps(n) == 0) ==> usedIndex == old(usedIndex) && phase == old(phase)
    {
      hide Outcome, DiskOk, JobOk, ChainReady;
      job := j;
      availRing[availIndex % QUEUE_SIZE] := 0;
      Interleave(0);
      availIndex := (availIndex + 1) % U16;
    }

    /**
     Offer the chain to the device. The device may answer before the driver counts the
     request. Stale entries stay as many as they were.
     */
    method Offer(ghost j: Job)
      requires Valid()
      modifies this, availRing, usedRing, data
      ensures Valid() && (old(Quiet() && ReadyFor(j)) ==> InFlight() && job == j)
      ensures old(InStep()) ==> InStep()
      ensures Stale() == old(Stale()) && lastUsedIndex == (old(lastUsedIndex) + 1) % U16
      ensures (forall n :: oracle.steps(n) == 0) ==> usedIndex == old(usedIndex) && phase == old(phase)
    {
      hide InFlight, Quiet, ReadyFor, DiskOk, Left;
      SameDistance(availIndex, lastUsedIndex);
      PutEntry(j);
      Interleave(0);
      CountRequest();
    }

    lemma SameDistance(a: nat, b: nat)
      requires a < U16 && b < U16
      ensures ((a + 1) % U16 - (b + 1) % U16) % U16 == (a - b) % U16
    {
    }

    /** The driver counts the request it offered. */
    method CountRequest()
      requires Valid()
      modifies this`lastUsedIndex
      ensures Valid() && lastUsedIndex == (old(lastUsedIndex) + 1) % U16
      ensures old(InFlight()) ==> InFlight()
    {
      hide Outcome, DiskOk, JobOk, ChainReady, Described;
      lastUsedIndex := (lastUsedIndex + 1) % U16;
    }

    /** Wait until the device has answered. */
    method Await()
      requires InFlight() && lastUsedIndex == (job.index0 + 1) % U16
      modifies this`usedIndex, this`reqStatus, this`disk, this`lastAvail, this`phase, this`time, this`transfers
      modifies usedRing, data
      ensures Quiet() && transfers == job.number + 1 && Outcome(job, reqStatus, JobFails(), disk, data[..])
    {
      hide Outcome, DiskOk, JobOk, ChainReady;
      var busy := VirtqIsBusy();
      while busy
        invariant InFlight() && lastUsedIndex == availIndex && (busy <==> Left() > 0)
        decreases Left()
      {
        assert Left() > 0;
        RunBusy(1);
        busy := VirtqIsBusy();
      }
    }

    /**
     One sector between the buffer and the disk. However the device's steps fall, and
     wherever the 16-bit indices stand, success means that exactly this one sector was
     copied, as one step, and failure means that either nothing happened or, for a write
     the device reported as failed, that the sector was written nevertheless.
     */
    method ReadWriteDisk(buf: array<nat>, off: nat, sector: nat, isWrite: bool) returns (ok: bool)
      requires Quiet() && off + SECTOR_SIZE <= buf.Length && buf !in {data, availRing, usedRing}
      modifies this, descs, availRing, usedRing, data, buf
      ensures Quiet()
      ensures ok <==> sector < Sectors(config) && !oracle.fails(old(transfers))
      ensures ok && isWrite ==> disk == old(disk)[sector := old(buf[off..off + SECTOR_SIZE])] && buf[..] == old(buf[..])
      ensures ok && !isWrite ==>
                disk == old(disk) && buf[..] == old(buf[..off]) + old(disk)[sector] + old(buf[off + SECTOR_SIZE..])
      ensures !ok ==> buf[..] == old(buf[..])
      ensures !ok ==>
                disk == old(disk) ||
                (isWrite && sector < Sectors(config) &&
                 disk == old(disk)[sector := old(buf[off..off + SECTOR_SIZE])])
      ensures transfers == if sector < Sectors(config) then old(transfers) + 1 else old(transfers)
    {
      if sector >= Sectors(config) {
        ok := false;
        return;
      }
      ghost var j := Job(isWrite, sector, buf[off..off + SECTOR_SIZE], disk, lastUsedIndex, transfers);
      FillRequest(buf, off, sector, isWrite);
      FillDescriptors(isWrite);
      j := j.(index0 := lastUsedIndex);
      Offer(j);
      Await();
      ok := reqStatus == STATUS_OK;
      if ok && !isWrite {
        CopyData(buf, off);
      }
    }

    /** A request in any state after set-up, with its wait as far as it is after some busy tests. */
    method TryRequest(buf: array<nat>, off: nat, sector: nat, isWrite: bool, polls: nat) returns (answered: bool)
      requires InStep() && off + SECTOR_SIZE <= buf.Length && buf !in {data, availRing, usedRing}
      modifies this, descs, availRing, usedRing, data
      ensures InStep() && Stale() == old(Stale())
      ensures answered ==> Outstanding() == Stale()
    {
      hide InFlight, Quiet, Idled, ReadyFor, DiskOk, ChainReady;
      ghost var j := Job(isWrite, sector, buf[off..off + SECTOR_SIZE], disk, lastUsedIndex, transfers);
      FillRequest(buf, off, sector, isWrite);
      FillDescriptors(isWrite);
      Offer(j);
      var i := 0;
      var busy := VirtqIsBusy();
      while busy && i < polls
        invariant InStep() && Stale() == old(Stale()) && (busy <==> Outstanding() != Stale())
      {
        Interleave(1);
        busy := VirtqIsBusy();
        i := i + 1;
      }
      answered := !busy;
    }

    /**
     Any requests in a row, until a wait is not over: whenever the driver saw one answered, as
     many entries were still to be taken by the device as were stale at the start. Its own
     entry is the last of them, so with anything stale no request was served before its
     answer was seen, and with nothing stale every one was.
     */
    method RunRequests(work: seq<(nat, bool)>, buf: array<nat>, polls: nat) returns (ahead: seq<nat>)
      requires InStep() && SECTOR_SIZE <= buf.Length && buf !in {data, availRing, usedRing}
      modifies this, descs, availRing, usedRing, data
      ensures InStep() && Stale() == old(Stale()) && |ahead| <= |work|
      ensures forall k :: 0 <= k < |ahead| ==> ahead[k] == old(Stale())
    {
      ahead := [];
      var answered := true;
      while answered && |ahead| < |work|
        invariant InStep() && Stale() == old(Stale()) && |ahead| <= |work|
        invariant forall k :: 0 <= k < |ahead| ==> ahead[k] == old(Stale())
        decreases |work| - |ahead|, answered
      {
        var (sector, isWrite) := work[|ahead|];
        answered := TryRequest(buf, 0, sector, isWrite, polls);
        if answered {
          ahead := ahead + [Outstanding()];
        }
      }
    }

    /** memcpy of the request's data. */
    method CopyData(buf: array<nat>, off: nat)
      requires off + SECTOR_SIZE <= buf.Length && buf != data && data.Length == SECTOR_SIZE
      modifies buf
      ensures buf[..] == old(buf[..off]) + data[..] + old(buf[off + SECTOR_SIZE..])
    {
      forall i | 0 <= i < SECTOR_SIZE {
        buf[off + i] := data[i];
      }
    }

    method ReadDisk(buf: array<nat>, off: nat, sector: nat) returns (ok: bool)
      requires Quiet() && off + SECTOR_SIZE <= buf.Length && buf !in {data, availRing, usedRing}
      modifies this, descs, availRing, usedRing, data, buf
      ensures Quiet() && disk == old(disk)
      ensures ok ==>
                sector < Sectors(config) && buf[..] == old(buf[..off]) + disk[sector] + old(buf[off + SECTOR_SIZE..])
      ensures !ok ==> buf[..] == old(buf[..])
      ensures transfers == if sector < Sectors(config) then old(transfers) + 1 else old(transfers)
      ensures ok <==> sector < Sectors(config) && !oracle.fails(old(transfers))
    {
      ok := ReadWriteDisk(buf, off, sector, false);
    }

    method WriteDisk(buf: array<nat>, off: nat, sector: nat) returns (ok: bool)
      requires Quiet() && off + SECTOR_SIZE <= buf.Length && buf !in {data, availRing, usedRing}
      modifies this, descs, availRing, usedRing, data, buf
      ensures Quiet() && buf[..] == old(buf[..])
      ensures ok ==> sector < Sectors(config) && disk == old(disk)[sector := buf[off..off + SECTOR_SIZE]]
      ensures !ok && disk != old(disk) ==>
                sector < Sectors(config) && disk == old(disk)[sector := buf[off..off + SECTOR_SIZE]]
      ensures transfers == if sector < Sectors(config) then old(transfers) + 1 else old(transfers)
      ensures ok <==> sector < Sectors(config) && !oracle.fails(old(transfers))
    {
      ok := ReadWriteDisk(buf, off, sector, true);
    }
  }

  /** One sector of zeros and a device that is silent unless it is stepped. */
  method SmallDevice(foundAvailIndex: nat) returns (blk: VirtioBlk)
    requires foundAvailIndex < U16
    ensures fresh(blk) && fresh(blk.data) && fresh(blk.availRing) && fresh(blk.usedRing)
    ensures blk.InStep() && blk.Stale() == foundAvailIndex && blk.usedIndex == blk.lastUsedIndex == 0
    ensures blk.phase == Idle
    ensures forall n :: blk.oracle.steps(n) == 0
  {
    var descs := new Desc[QUEUE_SIZE](_ => Desc(0, 0, 0, 0));
    var availRing, usedRing := new nat[QUEUE_SIZE](_ => 0), new nat[QUEUE_SIZE](_ => 0);
    var sector, data := seq(SECTOR_SIZE, _ => 0), new nat[SECTOR_SIZE](_ => 0);
    blk := new VirtioBlk(1, [sector], Oracle(_ => 0, _ => false, _ => false), 0, descs, availRing, usedRing, data,
                         foundAvailIndex);
  }

  /**
   With avail.index 1 found in memory: the device answers the stale entry first, and the
   driver takes that for the answer to its first request, at which the device has not
   looked yet.
   */
  method StaleEntryAnswered(ghost j: Job) returns (blk: VirtioBlk, busy: bool)
    ensures blk.lastUsedIndex == 1 && !busy && blk.Outstanding() == 1
  {
    hide VirtioBlk.InFlight, VirtioBlk.Quiet, VirtioBlk.Idled, VirtioBlk.ReadyFor, DiskOk;
    blk := SmallDevice(1);
    blk.AnswerEntry();
    blk.Offer(j);
    busy := blk.VirtqIsBusy();
  }

  /** With 0xffff found, the first request makes the ring look empty: the device never starts and the driver waits. */
  method RequestNeverSeen(ghost j: Job) returns (blk: VirtioBlk, busy: bool)
    ensures blk.lastUsedIndex == 1 && busy && blk.phase == Idle && blk.Outstanding() == 0
  {
    hide VirtioBlk.InFlight, VirtioBlk.Quiet, VirtioBlk.Idled, VirtioBlk.ReadyFor, DiskOk;
    blk := SmallDevice(0xffff);
    blk.Offer(j);
    busy := blk.VirtqIsBusy();
  }
}
