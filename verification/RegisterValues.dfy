/** What the register words of `driver/src/ane_h13.c` mean, and what enabling the task manager
    leaves behind, without reference to the order of the accesses. */
module RegisterValues {
  import opened Words
  import opened Bits
  import opened Engine

  // ----- Words made of fields -----

  /** TM_INFO holds the task count in its low half exactly if the count fits 16 bits; it then holds
      the number of words less one in its high half exactly if there is a word and that fits too. */
  lemma InfoWordFields(td_size: u32, td_count: u32)
    ensures Low(InfoWord(td_size, td_count), 16) == td_count <==> td_count < 0x1_0000
    ensures td_count < 0x1_0000 ==>
      (Shr(InfoWord(td_size, td_count), 16) == td_size / 4 - 1 <==> 4 <= td_size < 0x4_0004)
  {
    hide Or, Low, Shr, Pow2, SizeWord;
    Powers();
    var high := SizeHalf(td_size);
    if td_count < 0x1_0000 {
      OrLow(high, td_count, 16);
      Join(high, td_count, 16);
    }
  }

  /** What is written to TM_INFO. */
  function InfoWord(td_size: u32, td_count: u32): nat {
    Or(SizeWord(td_size), td_count)
  }

  lemma SizeHalf(td_size: u32) returns (high: nat)
    ensures SizeWord(td_size) == high * Pow2(16)
    ensures high == td_size / 4 - 1 <==> 4 <= td_size < 0x4_0004
  {
    hide Low, Shr, Pow2;
    Powers();
    Split(td_size, 2);
    var q := Shr(td_size, 2);
    assert q == td_size / 4;
    var y := Low(q + 0xFFFF_FFFF, 32);
    high := Low(y, 16);
    ShiftHalf(y);
    if q > 0 {
      Join(1, q - 1, 32);
      if q <= 0x1_0000 {
        LowSmall(q - 1, 16);
      }
    }
  }

  lemma ShiftHalf(y: nat)
    ensures Shl(32, y, 16) == Low(y, 16) * Pow2(16)
  {
    hide Low, Shr, Pow2;
    Powers();
    Split(y, 16);
    Join(Shr(y, 16), Low(y, 16) * 0x1_0000, 32);
  }

  /** The id of a queue entry: the low byte of the network id above the bit that makes it valid. */
  lemma NidWordFields(nid: u32)
    ensures NidWord(nid) == nid % 0x100 * 0x100 + 1
  {
    hide Or, And, Low, Shr, Pow2;
    Powers();
    AndOnes(nid, 8);
    Split(nid, 8);
    var low := Low(nid, 8);
    LowSmall(low * 0x100, 32);
    OrLow(low, 1, 8);
  }

  /** The priorities of the eight queues: 1 to 6, and 0x1e and 0x1f for the last two. */
  function QueuePriority(qid: nat): nat {
    if qid < 6 then qid + 1 else qid + 0x18
  }

  lemma PriorityIs(qid: nat)
    requires qid < 8
    ensures Priority(qid) == QueuePriority(qid) < 0x20
  {
  }

  /** The push word names the queue and its priority. */
  lemma PushWordFields(qid: nat)
    requires qid < 8
    ensures PushWord(qid) == qid * 0x100 + QueuePriority(qid)
  {
    hide Or, And, Low, Shr, Pow2;
    Powers();
    PriorityIs(qid);
    AndOnes(qid, 3);
    LowSmall(qid, 3);
    LowSmall(qid * 0x100, 32);
    OrLow(qid, Priority(qid), 8);
    OrComm(qid * 0x100, Priority(qid));
  }

  /** The size word: the number of words less one in its high half, modulo 2^16. */
  lemma SizeWordIs(td_size: u32)
    ensures SizeWord(td_size) == SizeField(td_size)
  {
    hide Low, Shr, Pow2;
    Powers();
    Part(td_size, 2);
    var y := td_size / 4 + 0xFFFF_FFFF;
    ShiftHalf(Low(y, 32));
    Part(y, 32);
    Part(y % 0x1_0000_0000, 16);
    ModTwice(td_size / 4);
  }

  function SizeField(td_size: u32): nat {
    (td_size / 4 + 0xFFFF) % 0x1_0000 * 0x1_0000
  }

  lemma ModTwice(q: nat)
    ensures (q + 0xFFFF_FFFF) % 0x1_0000_0000 % 0x1_0000 == (q + 0xFFFF) % 0x1_0000
  {
  }

  // ----- The register map -----

  /** The addresses of the registers that the driver uses. */
  lemma RegisterMap(qid: nat, bdx: nat)
    requires qid < 8 && bdx < 32
    ensures Address(TmAddr) == 0x20000 && Address(TmInfo) == 0x20004 && Address(TmPush) == 0x20008
    ensures Address(TmTqEn) == 0x2000c && Address(TmIrqEn1) == 0x20068 && Address(TmIrqAck) == 0x2006c
    ensures Address(TmIrqEn2) == 0x20070
    ensures Address(TqStatus(qid)) == 0x21000 + qid * 0x148 && Address(TqPrty(qid)) == 0x21010 + qid * 0x148
    ensures Address(TqBar1(qid, bdx)) == 0x21020 + qid * 0x148 + bdx * 4
    ensures Address(TqNid1(qid)) == 0x210a0 + qid * 0x148
    ensures Address(TqSize1(qid)) == 0x21130 + qid * 0x148 && Address(TqAddr1(qid)) == 0x21134 + qid * 0x148
  {
  }

  // ----- Enabling -----

  /** The value of a register after enabling: bit 12 set in TM_TQ_EN, a priority in every queue,
      two interrupt masks, and every other register as it was. */
  function Enabled(before: Registers, r: Reg): nat
    requires Complete(before) && Exists(r)
  {
    match r
    case TmTqEn => Or(Get(before, TmTqEn), 0x1000)
    case TqPrty(qid) => QueuePriority(qid)
    case TmIrqEn1 => 0x400_0000
    case TmIrqEn2 => 0x6
    case _ => Get(before, r)
  }

  /** The position in the program after which the register has that value. */
  function SetAt(r: Reg): nat {
    match r
    case TmTqEn => 2
    case TqPrty(qid) => 3 + qid
    case TmIrqEn1 => 11
    case TmIrqEn2 => 12
    case _ => 0
  }

  lemma {:induction false} EnableSoFar(l: Local, k: nat, r: Reg)
    requires Complete(l.regs) && k <= 12 && Exists(r)
    ensures Get(Run(Enable, k, l).regs, r) == if k >= SetAt(r) then Enabled(l.regs, r) else Get(l.regs, r)
    ensures k == 1 ==> Run(Enable, k, l).tmp == Get(l.regs, TmTqEn)
  {
    hide Get, Set, Complete, Priority, Or;
    if k > 0 {
      EnableSoFar(l, k - 1, r);
      EnableStep(l, k - 1, r);
    }
  }

  lemma EnableStep(l: Local, k: nat, r: Reg)
    requires Complete(l.regs) && k < 12 && Exists(r)
    requires Get(Run(Enable, k, l).regs, r) == if k >= SetAt(r) then Enabled(l.regs, r) else Get(l.regs, r)
    requires k == 1 ==> Run(Enable, k, l).tmp == Get(l.regs, TmTqEn)
    ensures Get(Run(Enable, k + 1, l).regs, r) == if k + 1 >= SetAt(r) then Enabled(l.regs, r) else Get(l.regs, r)
    ensures k == 0 ==> Run(Enable, 1, l).tmp == Get(l.regs, TmTqEn)
  {
    hide Get, Set, Complete, Priority, QueuePriority, Or, Run;
    var now, a := Run(Enable, k, l), Enable.At(k);
    RunStep(Enable, k, l);
    if k == 0 {
      RunNothing(Enable, l);
    }
    if 2 <= k < 10 {
      PriorityIs(k - 2);
    }
    if a.reg == r && !a.Load? {
      GetSet(now.regs, r, r, if a.Put? then a.value else Or(now.tmp, a.bits));
    } else {
      DoFrame(a, now, r);
    }
  }

  lemma RunNothing(p: Program, l: Local)
    requires p.Valid() && Complete(l.regs)
    ensures Run(p, 0, l) == l
  {
  }

  /** Enabling leaves exactly these values, from any state of the registers. */
  lemma EnableLeaves(regs: Registers, r: Reg)
    requires Complete(regs) && Exists(r)
    ensures Get(Run(Enable, 12, Local(regs, 0)).regs, r) == Enabled(regs, r)
  {
    hide Get, Run, Complete, Enabled;
    assert SetAt(r) <= 12;
    EnableSoFar(Local(regs, 0), 12, r);
  }

  // ----- A request -----

  /** The value of a register after `tm_enqueue`: the request in the first half of its queue, whose
      status is 1, and every other register as it was. */
  function Enqueued(before: Registers, req: Request, r: Reg): nat
    requires Complete(before) && req.Valid() && Exists(r)
  {
    if !OfQueue(r) || r.qid != req.qid then Get(before, r)
    else
      match r
      case TqStatus(_) => 1
      case TqBar1(_, bdx) => req.bar[bdx] % 0x1_0000_0000
      case TqSize1(_) => SizeField(req.td_size)
      case TqAddr1(_) => req.btsp_iova % 0x1_0000_0000
      case TqNid1(_) => req.nid % 0x100 * 0x100 + 1
      case _ => Get(before, r)
  }

  function EnqueuedAt(r: Reg): nat {
    match r
    case TqStatus(_) => 1
    case TqBar1(_, bdx) => 2 + bdx
    case TqSize1(_) => 34
    case TqAddr1(_) => 35
    case TqNid1(_) => 36
    case _ => 0
  }

  lemma {:induction false} EnqueueSoFar(req: Request, l: Local, k: nat, r: Reg)
    requires Complete(l.regs) && req.Valid() && k <= 36 && Exists(r)
    ensures Get(Run(Enqueue(req), k, l).regs, r) ==
            if k >= EnqueuedAt(r) then Enqueued(l.regs, req, r) else Get(l.regs, r)
  {
    hide Get, Set, Complete, Or, Lower32, SizeWord, NidWord, Enqueued, EnqueuedAt;
    if k > 0 {
      EnqueueSoFar(req, l, k - 1, r);
      EnqueueStep(req, l, k - 1, r);
    } else {
      EnqueueStart(req, l, r);
    }
  }

  lemma EnqueueStart(req: Request, l: Local, r: Reg)
    requires Complete(l.regs) && req.Valid() && Exists(r)
    ensures EnqueuedAt(r) == 0 ==> Enqueued(l.regs, req, r) == Get(l.regs, r)
  {
    hide Get, Complete;
  }

  lemma EnqueueStep(req: Request, l: Local, k: nat, r: Reg)
    requires Complete(l.regs) && req.Valid() && k < 36 && Exists(r)
    requires Get(Run(Enqueue(req), k, l).regs, r) ==
             if k >= EnqueuedAt(r) then Enqueued(l.regs, req, r) else Get(l.regs, r)
    ensures Get(Run(Enqueue(req), k + 1, l).regs, r) ==
            if k + 1 >= EnqueuedAt(r) then Enqueued(l.regs, req, r) else Get(l.regs, r)
  {
    hide Get, Set, Complete, Or, SizeWord, SizeField, NidWord, Run;
    var now, a := Run(Enqueue(req), k, l), Enqueue(req).At(k);
    RunStep(Enqueue(req), k, l);
    SizeWordIs(req.td_size);
    NidWordFields(req.nid);
    if a.reg == r {
      GetSet(now.regs, r, r, a.value);
    } else {
      DoFrame(a, now, r);
    }
  }

  /** `tm_enqueue` leaves exactly these values, from any state of the registers. */
  lemma EnqueueLeaves(req: Request, regs: Registers, r: Reg)
    requires Complete(regs) && req.Valid() && Exists(r)
    ensures Get(Run(Enqueue(req), 36, Local(regs, 0)).regs, r) == Enqueued(regs, req, r)
  {
    hide Get, Run, Complete, Enqueued;
    assert EnqueuedAt(r) <= 36;
    EnqueueSoFar(req, Local(regs, 0), 36, r);
  }

  /** The value of a register after `tm_execute`: what the queue holds has been pushed, the
      interrupt is acknowledged, the status of the queue is 0, and the rest is as it was. */
  function Executed(before: Registers, req: Request, r: Reg): nat
    requires Complete(before) && req.Valid() && Exists(r)
  {
    match r
    case TmAddr => Get(before, TqAddr1(req.qid))
    case TmInfo => Or(Get(before, TqSize1(req.qid)), req.td_count)
    case TmPush => req.qid * 0x100 + QueuePriority(req.qid)
    case TmIrqAck => Or(Get(before, TmIrqAck), 2)
    case TqStatus(qid) => if qid == req.qid then 0 else Get(before, r)
    case _ => Get(before, r)
  }

  function ExecutedAt(r: Reg): nat {
    match r
    case TmAddr => 2
    case TmInfo => 4
    case TmPush => 5
    case TmIrqAck => 8
    case TqStatus(_) => 9
    case _ => 0
  }

  /** What the local variable holds before it is stored. */
  predicate Fetched(before: Registers, req: Request, k: nat, tmp: nat)
    requires Complete(before) && req.Valid()
  {
    (k == 1 ==> tmp == Get(before, TqAddr1(req.qid))) && (k == 3 ==> tmp == Get(before, TqSize1(req.qid))) &&
    (k == 7 ==> tmp == Get(before, TmIrqAck))
  }

  lemma {:induction false} ExecuteSoFar(req: Request, l: Local, k: nat, r: Reg)
    requires Complete(l.regs) && req.Valid() && k <= 9 && Exists(r)
    ensures Get(Run(Execute(req), k, l).regs, r) ==
            if k >= ExecutedAt(r) then Executed(l.regs, req, r) else Get(l.regs, r)
    ensures Fetched(l.regs, req, k, Run(Execute(req), k, l).tmp)
  {
    hide Get, Set, Complete, Or, PushWord, Executed, ExecutedAt, QueuePriority;
    if k > 0 {
      ExecuteSoFar(req, l, k - 1, r);
      ExecuteSoFar(req, l, k - 1, TqAddr1(req.qid));
      ExecuteSoFar(req, l, k - 1, TqSize1(req.qid));
      ExecuteSoFar(req, l, k - 1, TmIrqAck);
      ExecuteStep(req, l, k - 1, r);
    } else {
      ExecuteStart(req, l, r);
    }
  }

  lemma ExecuteStart(req: Request, l: Local, r: Reg)
    requires Complete(l.regs) && req.Valid() && Exists(r)
    ensures ExecutedAt(r) == 0 ==> Executed(l.regs, req, r) == Get(l.regs, r)
  {
    hide Get, Complete, Or, QueuePriority;
  }

  predicate HasReached(req: Request, l: Local, k: nat, r: Reg)
    requires Complete(l.regs) && req.Valid() && k <= 9 && Exists(r)
  {
    Get(Run(Execute(req), k, l).regs, r) == if k >= ExecutedAt(r) then Executed(l.regs, req, r) else Get(l.regs, r)
  }

  lemma ExecuteStep(req: Request, l: Local, k: nat, r: Reg)
    requires Complete(l.regs) && req.Valid() && k < 9 && Exists(r)
    requires HasReached(req, l, k, r) && Fetched(l.regs, req, k, Run(Execute(req), k, l).tmp)
    requires HasReached(req, l, k, TqAddr1(req.qid)) && HasReached(req, l, k, TqSize1(req.qid))
    requires HasReached(req, l, k, TmIrqAck)
    ensures HasReached(req, l, k + 1, r) && Fetched(l.regs, req, k + 1, Run(Execute(req), k + 1, l).tmp)
  {
    hide Get, Set, Complete, Or, PushWord, QueuePriority, Run;
    var now, a := Run(Execute(req), k, l), Execute(req).At(k);
    RunStep(Execute(req), k, l);
    PushWordFields(req.qid);
    if !a.Poll? && !a.Load? && a.reg == r {
      GetSet(now.regs, r, r, if a.Put? then a.value else Or(now.tmp, a.bits));
      OrWithZero(now.tmp);
    } else {
      DoFrame(a, now, r);
    }
  }

  lemma OrWithZero(x: nat)
    ensures Or(x, 0) == x
  {
  }

  /** `tm_execute` leaves exactly these values, from any state of the registers. */
  lemma ExecuteLeaves(req: Request, regs: Registers, r: Reg)
    requires Complete(regs) && req.Valid() && Exists(r)
    ensures Get(Run(Execute(req), 9, Local(regs, 0)).regs, r) == Executed(regs, req, r)
  {
    hide Get, Run, Complete, Executed;
    assert ExecutedAt(r) <= 9;
    ExecuteSoFar(req, Local(regs, 0), 9, r);
  }

  /** The value of a register after a submission that nothing interrupts. */
  function Submitted(before: Registers, req: Request, r: Reg): nat
    requires Complete(before) && req.Valid() && Exists(r)
  {
    match r
    case TmAddr => req.btsp_iova % 0x1_0000_0000
    case TmInfo => Or(SizeField(req.td_size), req.td_count)
    case TmPush => req.qid * 0x100 + QueuePriority(req.qid)
    case TmIrqAck => Or(Get(before, TmIrqAck), 2)
    case TqStatus(qid) => if qid == req.qid then 0 else Get(before, r)
    case TqBar1(qid, bdx) => if qid == req.qid then req.bar[bdx] % 0x1_0000_0000 else Get(before, r)
    case TqSize1(qid) => if qid == req.qid then SizeField(req.td_size) else Get(before, r)
    case TqAddr1(qid) => if qid == req.qid then req.btsp_iova % 0x1_0000_0000 else Get(before, r)
    case TqNid1(qid) => if qid == req.qid then req.nid % 0x100 * 0x100 + 1 else Get(before, r)
    case _ => Get(before, r)
  }

  /** The registers after `tm_enqueue` followed by `tm_execute`. */
  function AfterSubmission(req: Request, regs: Registers): (after: Registers)
    requires Complete(regs) && req.Valid()
    ensures Complete(after)
  {
    Run(Execute(req), 9, Local(Run(Enqueue(req), 36, Local(regs, 0)).regs, 0)).regs
  }

  lemma SubmissionLeaves(req: Request, regs: Registers, r: Reg)
    requires Complete(regs) && req.Valid() && Exists(r)
    ensures Get(AfterSubmission(req, regs), r) == Submitted(regs, req, r)
  {
    hide Get, Run, Complete, Or, SizeField, QueuePriority;
    var middle := Run(Enqueue(req), 36, Local(regs, 0)).regs;
    ExecuteLeaves(req, middle, r);
    EnqueueLeaves(req, regs, r);
    EnqueueLeaves(req, regs, TqAddr1(req.qid));
    EnqueueLeaves(req, regs, TqSize1(req.qid));
    EnqueueLeaves(req, regs, TmIrqAck);
  }
}
