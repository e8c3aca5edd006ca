/**
 The ring queue (src/common/queue.cc) and the console that prints from one
 (src/kernel/sched/sched_task_console.cc, src/platforms/virtio/virtio_pl011_uart.cc).
 */
module Queue {
  const MAX_SIZE: nat := 1024
  const PAGE_BYTES: nat := 0x1000
  const WORD_BYTES: nat := 4

  function Succ(i: nat, size: nat): nat {
    if i + 1 == size then 0 else i + 1
  }

  /** The elements between two places of a ring, around its end if need be. */
  function Ring(buff: seq<nat>, head: nat, tail: nat): (r: seq<nat>)
    requires head < |buff| && tail < |buff|
    ensures |r| == if head <= tail then tail - head else |buff| - head + tail
    ensures forall k :: 0 <= k < |r| ==> r[k] == buff[if head + k < |buff| then head + k else head + k - |buff|]
  {
    if head <= tail then buff[head..tail] else buff[head..] + buff[..tail]
  }

  /** Writing at the tail adds at the end. */
  lemma RingPush(buff: seq<nat>, head: nat, tail: nat, data: nat)
    requires head < |buff| && tail < |buff| && head != Succ(tail, |buff|)
    ensures Ring(buff[tail := data], head, Succ(tail, |buff|)) == Ring(buff, head, tail) + [data]
  {
    hide Ring;
  }

  /** Moving the head takes from the front. */
  lemma RingPop(buff: seq<nat>, head: nat, tail: nat)
    requires head < |buff| && tail < |buff| && head != tail
    ensures Ring(buff, head, tail) == [buff[head]] + Ring(buff, Succ(head, |buff|), tail)
  {
    hide Ring;
  }

  class Queue {
    const buff: array<nat>      // one page of the kernel heap, as words
    var head: nat
    var tail: nat

    /** The buffer is the whole page that a request of MAX_SIZE bytes is rounded up to. */
    ghost predicate Valid()
      reads this
    {
      WORD_BYTES * buff.Length == PAGE_BYTES && head < MAX_SIZE && tail < MAX_SIZE
    }

    ghost function Contents(): (r: seq<nat>)
      requires Valid()
      reads this, buff
      ensures |r| < MAX_SIZE
    {
      Ring(buff[..], head, tail)
    }

    constructor (page: array<nat>)
      requires WORD_BYTES * page.Length == PAGE_BYTES
      ensures Valid() && buff == page && Contents() == []
    {
      buff := page;
      head, tail := 0, 0;
    }

    method Empty() returns (empty: bool)
      requires Valid()
      ensures empty <==> Contents() == []
    {
      empty := head == tail;
    }

    method Full() returns (full: bool)
      requires Valid()
      ensures full <==> |Contents()| == 1023
    {
      full := head == (tail + 1) % MAX_SIZE;
    }

    method Push(data: nat) returns (ok: bool)
      requires Valid()
      modifies this`tail, buff
      ensures Valid() && (ok <==> |old(Contents())| < 1023)
      ensures Contents() == if ok then old(Contents()) + [data] else old(Contents())
    {
      var full := Full();
      if full {
        return false;
      }
      RingPush(buff[..], head, tail, data);
      buff[tail] := data;
      tail := tail + 1;
      if tail == MAX_SIZE {
        tail := 0;
      }
      assert buff[..] == old(buff[..])[old(tail) := data];
      ok := true;
    }

    method Pop() returns (data: nat)
      requires Valid()
      modifies this`head
      ensures Valid()
      ensures old(Contents()) == [] ==> data == 0 && Contents() == []
      ensures old(Contents()) != [] ==> old(Contents()) == [data] + Contents()
    {
      var empty := Empty();
      if empty {
        return 0;
      }
      RingPop(buff[..], head, tail);
      data := buff[head];
      head := head + 1;
      if head == MAX_SIZE {
        head := 0;
      }
    }
  }

  /** The output side of a guest's console. */
  class Console {
    const out: Queue
    var printed: seq<nat>           // what went to the serial line
    ghost var accepted: seq<nat>    // what the device took from the guest

    /** Nothing accepted is lost, doubled or reordered, and what waits are bytes. */
    ghost predicate Valid()
      reads this, out, out.buff
    {
      && out.Valid() && accepted == printed + out.Contents()
      && forall i :: 0 <= i < |accepted| ==> accepted[i] < 0x100
    }

    constructor (page: array<nat>)
      requires WORD_BYTES * page.Length == PAGE_BYTES
      ensures Valid() && out.buff == page && accepted == [] && fresh(out)
    {
      out := new Queue(page);
      printed, accepted := [], [];
    }

    /** The guest writes the data register; a byte that finds the queue full is dropped. */
    method WriteData(data: nat)
      requires Valid()
      modifies this`accepted, out`tail, out.buff
      ensures Valid()
      ensures accepted == if |old(out.Contents())| < 1023 then old(accepted) + [data % 0x100] else old(accepted)
    {
      var full := out.Full();
      if !full {
        var ok := out.Push(data % 0x100);
        accepted := accepted + [data % 0x100];
      }
    }

    /** FlushConsole: afterwards everything accepted is printed. */
    method Flush()
      requires Valid()
      modifies this`printed, out`head
      ensures Valid() && printed == accepted && out.Contents() == []
    {
      hide Ring;
      var empty := out.Empty();
      while !empty
        invariant Valid() && (empty <==> out.Contents() == [])
        decreases |out.Contents()|
      {
        ghost var waiting := out.Contents();
        var data := out.Pop();
        assert accepted[|printed|] == data;
        assert printed + waiting == (printed + [data]) + out.Contents();
        printed := printed + [data % 0x100];
        empty := out.Empty();
      }
    }
  }
}
