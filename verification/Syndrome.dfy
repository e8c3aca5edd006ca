/**
 The syndrome of a data abort (src/arch/arm64/irq/trap.cc), and loads and stores of device
 registers: what an Arm CPU does (sections C6.2 and D17.2.37 of the Arm Architecture Reference
 Manual, DDI 0487) and what the trap handler of src/mm/kmm_trap.cc does in its place.
 */
module Syndrome {
  import opened Bits

  const TRANSLATION_FAULT: nat := 1
  const PERMISSION_FAULT: nat := 3

  // The fields that the code takes from ESR_EL2.

  function FaultStatus(esr: nat): nat { esr % 0x40 / 4 }

  function TransferRegister(esr: nat): (srt: nat)
    ensures srt < 32
  {
    esr / 0x1_0000 % 0x20
  }

  function IsRead(esr: nat): bool { esr / 0x40 % 2 == 0 }

  // What the instruction that was trapped does, and what the hardware tells of it.

  function Bytes(sas: nat): nat
    requires sas < 4
  {
    if sas == 0 then 1 else if sas == 1 then 2 else if sas == 2 then 4 else 8
  }

  /** One more than the greatest value of 2^sas bytes. */
  function Limit(sas: nat): (n: nat)
    requires sas < 4
    ensures 0 < n && n % 2 == 0
  {
    if sas == 0 then 0x100 else if sas == 1 then 0x1_0000 else if sas == 2 then 0x1_0000_0000 else WORD
  }

  function RegisterLimit(wide: bool): nat { if wide then WORD else 0x1_0000_0000 }

  /** What an Arm store of 2^sas bytes of a register stores: 31 is the zero register. */
  function StoredBy(x: seq<nat>, srt: nat, sas: nat): nat
    requires |x| == 31 && srt < 32 && sas < 4
  {
    (if srt == 31 then 0 else x[srt]) % Limit(sas)
  }

  /** What an Arm load makes of the value it reads. */
  function Extended(v: nat, sas: nat, signed: bool, wide: bool): nat
    requires sas < 4
  {
    var low := v % Limit(sas);
    if signed && low >= Limit(sas) / 2 && Limit(sas) < RegisterLimit(wide)
    then low + (RegisterLimit(wide) - Limit(sas))
    else low
  }

  /** The registers after it. */
  function LoadedInto(x: seq<nat>, srt: nat, sas: nat, signed: bool, wide: bool, v: nat): seq<nat>
    requires |x| == 31 && srt < 32 && sas < 4
  {
    if srt == 31 then x else x[srt := Extended(v, sas, signed, wide)]
  }

  /** A load or store of 2^sas bytes of one register, or of each of two. */
  datatype Instruction =
    | Single(stores: bool, register: nat, sas: nat, signed: bool, wide: bool)
    | Pair(stores: bool, first: nat, second: nat, sas: nat)
  {
    ghost predicate Valid() {
      sas < 4 && if Single? then register < 32 else first < 32 && second < 32
    }
  }

  /**
   What the hardware reports of it: the direction in WnR (bit 6); and if it is of one register
   in ISV (24), and then this in SRT (20:16), the size in SAS (23:22), whether a sign is
   extended in SSE (21) and whether to 64 bits in SF (15).
   */
  ghost predicate Describes(esr: nat, i: Instruction) {
    && i.Valid() && (esr / 0x40 % 2 == 1 <==> i.stores)
    && match i
       case Single(_, register, sas, signed, wide) =>
         && esr / 0x100_0000 % 2 == 1 && esr / 0x1_0000 % 0x20 == register && esr / 0x40_0000 % 4 == sas
         && (esr / 0x20_0000 % 2 == 1 <==> signed) && (esr / 0x8000 % 2 == 1 <==> wide)
       case Pair(_, _, _, _) => esr / 0x100_0000 % 2 == 0
  }

  /** What a device is asked. */
  datatype Request = Load(addr: nat) | Store(addr: nat, value: nat)

  /** What an instruction does: the registers after it, and what it asks of the device. */
  datatype Effect = Effect(x: seq<nat>, requests: seq<Request>)

  /** On an Arm CPU, at the IPA, the device answering answer and then next. */
  ghost function OnArm(i: Instruction, x: seq<nat>, ipa: nat, answer: nat, next: nat): Effect
    requires i.Valid() && |x| == 31
  {
    match i
    case Single(stores, register, sas, signed, wide) =>
      if stores then Effect(x, [Store(ipa, StoredBy(x, register, sas))])
      else Effect(LoadedInto(x, register, sas, signed, wide, answer), [Load(ipa)])
    case Pair(stores, first, second, sas) =>
      var ipa' := ipa + Bytes(sas);
      if stores then Effect(x, [Store(ipa, StoredBy(x, first, sas)), Store(ipa', StoredBy(x, second, sas))])
      else
        var x' := LoadedInto(x, first, sas, false, true, answer);
        Effect(LoadedInto(x', second, sas, false, true, next), [Load(ipa), Load(ipa')])
  }

  /** By the trap handler: at the virtual address, the whole word, and sp for register 31. */
  ghost function Emulated(x: seq<nat>, sp: nat, far: nat, srt: nat, read: bool, answer: nat): Effect
    requires |x| == 31 && srt < 32
  {
    if read then Effect(if srt == 31 then x else x[srt := answer], [Load(far)])
    else Effect(x, [Store(far, if srt == 31 then sp else x[srt])])
  }

  /** The answer is what a load of the size makes of it. */
  predicate FitsLoad(v: nat, sas: nat, signed: bool, wide: bool)
    requires sas < 4
  {
    if signed && Limit(sas) < RegisterLimit(wide) then
      v < Limit(sas) / 2 || RegisterLimit(wide) - Limit(sas) / 2 <= v < RegisterLimit(wide)
    else v < Limit(sas)
  }

  lemma ExtendedIff(v: nat, sas: nat, signed: bool, wide: bool)
    requires sas < 4
    ensures Extended(v, sas, signed, wide) == v <==> FitsLoad(v, sas, signed, wide)
  {
    hide Limit, RegisterLimit;
    var n, r := Limit(sas), RegisterLimit(wide);
    Small(v, n);
    if n < r && r - n <= v < r {
      var m := Multiple(sas, wide);
      Quotient(v, n, m - 1, v - (r - n));
    }
  }

  lemma Small(v: nat, n: nat)
    requires n > 0
    ensures v % n < n && (v % n == v <==> v < n)
  {
  }

  lemma Multiple(sas: nat, wide: bool) returns (m: nat)
    requires sas < 4 && Limit(sas) < RegisterLimit(wide)
    ensures m > 0 && RegisterLimit(wide) - Limit(sas) == Limit(sas) * (m - 1)
  {
    m := RegisterLimit(wide) / Limit(sas);
  }

  /** What is known before the emulation: whether the whole word is what an Arm CPU moves. */
  predicate Fits(i: Instruction, x: seq<nat>, answer: nat)
    requires i.Single? && i.register < 32 && i.sas < 4 && |x| == 31
  {
    if i.stores then i.register != 31 && x[i.register] < Limit(i.sas)
    else i.register == 31 || FitsLoad(answer, i.sas, i.signed, i.wide)
  }

  lemma SingleIff(i: Instruction, x: seq<nat>, sp: nat, far: nat, ipa: nat, answer: nat, next: nat)
    requires i.Single? && i.Valid() && |x| == 31 && sp > 0
    ensures Emulated(x, sp, far, i.register, !i.stores, answer) == OnArm(i, x, ipa, answer, next)
       <==> far == ipa && Fits(i, x, answer)
  {
    var srt, sas, signed, wide := i.register, i.sas, i.signed, i.wide;
    ExtendedIff(answer, sas, signed, wide);
    hide Extended, FitsLoad;
    if !i.stores && srt < 31 {
      assert x[srt := answer][srt] == answer;
      assert x[srt := Extended(answer, sas, signed, wide)][srt] == Extended(answer, sas, signed, wide);
    }
    if i.stores {
      hide Limit;
      Small(if srt == 31 then 0 else x[srt], Limit(sas));
    }
  }

  /**
   For every instruction and every syndrome that reports it: the emulation does what an Arm
   CPU does if and only if the guest's own translation is the identity there, the syndrome
   says that the instruction is of one register and, for a store, this is not the zero
   register and holds no more than is stored, or, for a load, it is the zero register or the
   answer needs no truncation or extension.
   */
  lemma RightIff(esr: nat, i: Instruction, x: seq<nat>, sp: nat, far: nat, ipa: nat, answer: nat, next: nat)
    requires Describes(esr, i) && |x| == 31 && sp > 0
    ensures Emulated(x, sp, far, TransferRegister(esr), IsRead(esr), answer) == OnArm(i, x, ipa, answer, next)
       <==> far == ipa && esr / 0x100_0000 % 2 == 1 && Fits(i, x, answer)
  {
    hide Fits, OnArm, Emulated;
    if i.Single? {
      SingleIff(i, x, sp, far, ipa, answer, next);
    } else {
      HowMany(i, x, sp, far, ipa, TransferRegister(esr), IsRead(esr), answer, next);
    }
  }

  /** The handler asks the device once, a pair of registers twice. */
  lemma HowMany(i: Instruction, x: seq<nat>, sp: nat, far: nat, ipa: nat, srt: nat, read: bool,
                answer: nat, next: nat)
    requires i.Pair? && i.Valid() && |x| == 31 && srt < 32
    ensures |Emulated(x, sp, far, srt, read, answer).requests| == 1 && |OnArm(i, x, ipa, answer, next).requests| == 2
  {
  }

  /** strb of a register that holds 0x1ff: an Arm CPU stores 0xff, the handler 0x1ff. */
  lemma ByteStoredWhole(x: seq<nat>, sp: nat, addr: nat, answer: nat)
    requires |x| == 31 && x[1] == 0x1ff
    ensures OnArm(Single(true, 1, 0, false, false), x, addr, answer, 0).requests == [Store(addr, 0xff)]
    ensures Emulated(x, sp, addr, 1, false, answer).requests == [Store(addr, 0x1ff)]
  {
  }

  /** ldrsb of 0x80: an Arm CPU extends the sign, the handler does not. */
  lemma SignLost(x: seq<nat>, sp: nat, addr: nat)
    requires |x| == 31
    ensures OnArm(Single(false, 1, 0, true, true), x, addr, 0x80, 0).x[1] == 0xffff_ffff_ffff_ff80
    ensures Emulated(x, sp, addr, 1, true, 0x80).x[1] == 0x80
  {
  }
}
