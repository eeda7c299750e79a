/** The H13 task-manager registers of `driver/src/ane_h13.c`, and the routines that enable the task
    manager and hand it a request, as sequences of register accesses.

    Registers are addressed as in the source, by byte offsets in one register window; that two
    registers do not alias is proved, not assumed. */
module Engine {
  import opened Words
  import opened Bits

  const TQ_COUNT := 8
  const TILE_COUNT := 32
  const ANE_TM_BASE := 0x20000
  const ANE_TQ_BASE := 0x21000
  const TQ_STRIDE := 0x148

  function Priority(qid: nat): u32
    requires qid < TQ_COUNT
  {
    [0x1, 0x2, 0x3, 0x4, 0x5, 0x6, 0x1e, 0x1f][qid]
  }

  datatype Reg =
    | TmAddr | TmInfo | TmPush | TmTqEn
    | TmIrqEvtc(line: nat) | TmIrqInfo(line: nat) | TmIrqUnk1(line: nat)
    | TmIrqTmst(line: nat) | TmIrqUnk2(line: nat)
    | TmCommitted | TmStatus | TmError1 | TmError2 | TmError3
    | TmIrqEn1 | TmIrqAck | TmIrqEn2
    | TqStatus(qid: nat) | TqPrty(qid: nat) | TqVacant(qid: nat) | TqInfo(qid: nat)
    | TqBar1(qid: nat, bdx: nat) | TqNid1(qid: nat) | TqSize2(qid: nat) | TqAddr2(qid: nat)
    | TqBar2(qid: nat, bdx: nat) | TqNid2(qid: nat) | TqSize1(qid: nat) | TqAddr1(qid: nat)

  /** The registers that the two maps define: two interrupt lines, eight queues, 32 tiles. */
  predicate Exists(r: Reg) {
    match r
    case TmIrqEvtc(line) => line < 2
    case TmIrqInfo(line) => line < 2
    case TmIrqUnk1(line) => line < 2
    case TmIrqTmst(line) => line < 2
    case TmIrqUnk2(line) => line < 2
    case TqBar1(qid, bdx) => qid < TQ_COUNT && bdx < TILE_COUNT
    case TqBar2(qid, bdx) => qid < TQ_COUNT && bdx < TILE_COUNT
    case _ => OfQueue(r) ==> r.qid < TQ_COUNT
  }

  predicate OfQueue(r: Reg) {
    r.TqStatus? || r.TqPrty? || r.TqVacant? || r.TqInfo? || r.TqBar1? || r.TqNid1? || r.TqSize2? ||
    r.TqAddr2? || r.TqBar2? || r.TqNid2? || r.TqSize1? || r.TqAddr1?
  }

  /** The offset of a register in its map, for queue 0. */
  function Offset(r: Reg): nat {
    match r
    case TmAddr => 0x0
    case TmInfo => 0x4
    case TmPush => 0x8
    case TmTqEn => 0xc
    case TmIrqEvtc(line) => 0x14 + line * 0x14
    case TmIrqInfo(line) => 0x18 + line * 0x14
    case TmIrqUnk1(line) => 0x1c + line * 0x14
    case TmIrqTmst(line) => 0x20 + line * 0x14
    case TmIrqUnk2(line) => 0x24 + line * 0x14
    case TmCommitted => 0x44
    case TmStatus => 0x54
    case TmError1 => 0x58
    case TmError2 => 0x5c
    case TmError3 => 0x60
    case TmIrqEn1 => 0x68
    case TmIrqAck => 0x6c
    case TmIrqEn2 => 0x70
    case TqStatus(_) => 0x000
    case TqPrty(_) => 0x010
    case TqVacant(_) => 0x014
    case TqInfo(_) => 0x01c
    case TqBar1(_, bdx) => 0x020 + bdx * 0x4
    case TqNid1(_) => 0x0a0
    case TqSize2(_) => 0x0a4
    case TqAddr2(_) => 0x0a8
    case TqBar2(_, bdx) => 0x0ac + bdx * 0x4
    case TqNid2(_) => 0x12c
    case TqSize1(_) => 0x130
    case TqAddr1(_) => 0x134
  }

  function Address(r: Reg): nat {
    if OfQueue(r) then ANE_TQ_BASE + Offset(r) + QueueOf(r) * TQ_STRIDE else ANE_TM_BASE + Offset(r)
  }

  function QueueOf(r: Reg): nat
    requires OfQueue(r)
  {
    r.qid
  }

  predicate Separate(a: nat, b: nat) {
    a + 4 <= b || b + 4 <= a
  }

  lemma OffsetsApart(r: Reg, s: Reg)
    requires Exists(r) && Exists(s) && r != s && OfQueue(r) == OfQueue(s)
    requires OfQueue(r) ==> QueueOf(r) == QueueOf(s)
    ensures Separate(Offset(r), Offset(s))
  {
  }

  lemma OffsetBound(r: Reg)
    requires Exists(r)
    ensures Offset(r) + 4 <= if OfQueue(r) then TQ_STRIDE else ANE_TQ_BASE - ANE_TM_BASE
  {
  }

  /** No two registers of the two maps share any of their four bytes. */
  lemma RegistersApart(r: Reg, s: Reg)
    requires Exists(r) && Exists(s) && r != s
    ensures Separate(Address(r), Address(s))
  {
    hide Offset, Exists, OfQueue;
    OffsetBound(r);
    OffsetBound(s);
    if OfQueue(r) == OfQueue(s) && (OfQueue(r) ==> QueueOf(r) == QueueOf(s)) {
      OffsetsApart(r, s);
    }
  }

  // ----- Register programs -----

  /** `struct ane_request`. */
  datatype Request = Request(qid: nat, nid: u32, td_size: u32, td_count: u32, btsp_iova: nat, bar: seq<nat>) {
    predicate Valid() {
      qid < TQ_COUNT && |bar| >= TILE_COUNT
    }
  }

  function Lower32(x: nat): u32 {
    x % 0x1_0000_0000
  }

  /** `((td_size >> 2) - 1) << 0x10` on `u32`; the subtraction wraps. */
  function SizeWord(td_size: u32): nat {
    Shl(32, Low(Shr(td_size, 2) + 0xFFFF_FFFF, 32), 0x10)
  }

  function NidWord(nid: u32): nat {
    Or(Shl(32, And(nid, 0xff), 8), 1)
  }

  function PushWord(qid: nat): nat
    requires qid < TQ_COUNT
  {
    Or(Priority(qid), Shl(32, And(qid, 7), 8))
  }

  /** One access: a write of a known value, a read into the local variable, a write of the local
      variable with some bits set, or the status poll. */
  datatype Access = Put(reg: Reg, value: nat) | Load(reg: Reg) | Store(reg: Reg, bits: nat) | Poll

  type Registers = map<nat, nat>

  ghost predicate Complete(regs: Registers) {
    forall r: Reg | Exists(r) :: Address(r) in regs
  }

  function Get(regs: Registers, r: Reg): nat
    requires Complete(regs) && Exists(r)
  {
    regs[Address(r)]
  }

  function Set(regs: Registers, r: Reg, value: nat): (after: Registers)
    requires Complete(regs) && Exists(r)
    ensures Complete(after)
  {
    regs[Address(r) := value]
  }

  /** Writing one register changes that register and no other. */
  lemma GetSet(regs: Registers, r: Reg, s: Reg, value: nat)
    requires Complete(regs) && Exists(r) && Exists(s)
    ensures Get(Set(regs, r, value), s) == if s == r then value else Get(regs, s)
  {
    if s != r && Address(s) == Address(r) {
      RegistersApart(r, s);
    }
  }

  datatype Local = Local(regs: Registers, tmp: nat)

  function Do(a: Access, l: Local): (l': Local)
    requires Complete(l.regs) && (a.Poll? || Exists(a.reg))
    ensures Complete(l'.regs)
  {
    match a
    case Put(r, v) => l.(regs := Set(l.regs, r, v))
    case Load(r) => l.(tmp := Get(l.regs, r))
    case Store(r, bits) => l.(regs := Set(l.regs, r, Or(l.tmp, bits)))
    case Poll => l
  }

  /** An access keeps every register except the one it writes. */
  lemma DoFrame(a: Access, l: Local, r: Reg)
    requires Complete(l.regs) && (a.Poll? || Exists(a.reg)) && Exists(r)
    requires a.Poll? || a.Load? || a.reg != r
    ensures Get(Do(a, l).regs, r) == Get(l.regs, r)
  {
    hide Get, Set, Complete, Exists;
    match a
    case Put(q, v) => GetSet(l.regs, q, r, v);
    case Store(q, bits) => GetSet(l.regs, q, r, Or(l.tmp, bits));
    case _ =>
  }

  datatype Program = Enable | Enqueue(req: Request) | Execute(req: Request) {
    predicate Valid() {
      Enable? || req.Valid()
    }

    function Length(): nat {
      match this
      case Enable => 12
      case Enqueue(_) => 36
      case Execute(_) => 9
    }

    /** The accesses of the three routines, in order. */
    function At(k: nat): (a: Access)
      requires Valid() && k < Length()
      ensures a.Poll? || Exists(a.reg)
    {
      match this
      case Enable => EnableAt(k)
      case Enqueue(req) => EnqueueAt(req, k)
      case Execute(req) => ExecuteAt(req, k)
    }
  }

  function EnableAt(k: nat): (a: Access)
    requires k < 12
    ensures a.Poll? || Exists(a.reg)
  {
    if k == 0 then Load(TmTqEn)
    else if k == 1 then Store(TmTqEn, 0x1000)
    else if k < 10 then Put(TqPrty(k - 2), Priority(k - 2))
    else if k == 10 then Put(TmIrqEn1, 0x400_0000)
    else Put(TmIrqEn2, 0x6)
  }

  function EnqueueAt(req: Request, k: nat): (a: Access)
    requires req.Valid() && k < 36
    ensures a.Poll? || Exists(a.reg)
  {
    if k == 0 then Put(TqStatus(req.qid), 0x1)
    else if k < 33 then Put(TqBar1(req.qid, k - 1), Lower32(req.bar[k - 1]))
    else if k == 33 then Put(TqSize1(req.qid), SizeWord(req.td_size))
    else if k == 34 then Put(TqAddr1(req.qid), Lower32(req.btsp_iova))
    else Put(TqNid1(req.qid), NidWord(req.nid))
  }

  function ExecuteAt(req: Request, k: nat): (a: Access)
    requires req.Valid() && k < 9
    ensures a.Poll? || Exists(a.reg)
  {
    hide PushWord;
    if k == 0 then Load(TqAddr1(req.qid))
    else if k == 1 then Store(TmAddr, 0)
    else if k == 2 then Load(TqSize1(req.qid))
    else if k == 3 then Store(TmInfo, req.td_count)
    else if k == 4 then Put(TmPush, PushWord(req.qid))
    else if k == 5 then Poll
    else if k == 6 then Load(TmIrqAck)
    else if k == 7 then Store(TmIrqAck, 2)
    else Put(TqStatus(req.qid), 0x0)
  }

  /** The effect of the first `n` accesses of a program run without interruption. */
  function Run(p: Program, n: nat, l: Local): (l': Local)
    requires p.Valid() && n <= p.Length() && Complete(l.regs)
    ensures Complete(l'.regs)
  {
    if n == 0 then l else Do(p.At(n - 1), Run(p, n - 1, l))
  }

  lemma RunStep(p: Program, n: nat, l: Local)
    requires p.Valid() && n < p.Length() && Complete(l.regs)
    ensures Run(p, n + 1, l) == Do(p.At(n), Run(p, n, l))
  {
  }

  // ----- The routines -----

  class TaskManager {
    var regs: Registers
    var engineLock: bool
    ghost var sawIdle: bool

    ghost predicate Valid() reads this {
      Complete(regs)
    }

    method Read32(r: Reg) returns (value: nat)
      requires Valid() && Exists(r)
      ensures value == Get(regs, r)
    {
      value := regs[Address(r)];
    }

    method Write32(r: Reg, value: nat)
      requires Valid() && Exists(r)
      modifies this`regs
      ensures Valid() && regs == Set(old(regs), r, value)
    {
      regs := regs[Address(r) := value];
    }

    /** The loop over the queues. */
    method SetPriorities(ghost start: Local, ghost en: nat)
      requires Valid() && Complete(start.regs) && Local(regs, en) == Run(Enable, 2, start)
      modifies this`regs
      ensures Valid() && Local(regs, en) == Run(Enable, 10, start)
    {
      hide Run, Get, Set, Address, Complete, Priority;
      for qid := 0 to TQ_COUNT
        invariant Valid() && Local(regs, en) == Run(Enable, 2 + qid, start)
      {
        Write32(TqPrty(qid), Priority(qid));
        RunStep(Enable, 2 + qid, start);
      }
    }

    method TmEnable()
      requires Valid()
      modifies this`regs
      ensures Valid() && regs == Run(Enable, 12, Local(old(regs), 0)).regs
    {
      ghost var start := Local(regs, 0);
      assert start == Run(Enable, 0, start);
      assert Exists(TmTqEn) && Exists(TmIrqEn1) && Exists(TmIrqEn2);
      hide Exists, Run, Get, Set, Or, Address, Complete, Priority;
      var en := Read32(TmTqEn);
      RunStep(Enable, 0, start);
      Write32(TmTqEn, Or(en, 0x1000));
      RunStep(Enable, 1, start);
      assert Local(regs, en) == Run(Enable, 2, start);
      SetPriorities(start, en);
      Write32(TmIrqEn1, 0x400_0000);
      RunStep(Enable, 10, start);
      assert Local(regs, en) == Run(Enable, 11, start);
      Write32(TmIrqEn2, 0x6);
      RunStep(Enable, 11, start);
    }

    method TmEnqueue(req: Request) returns (err: int)
      requires Valid() && req.Valid()
      modifies this`regs
      ensures Valid() && regs == Run(Enqueue(req), 36, Local(old(regs), 0)).regs && err == 0
    {
      ghost var p, start := Enqueue(req), Local(regs, 0);
      assert start == Run(p, 0, start);
      hide Run, Get, Set, Address, Complete;
      Write32(TqStatus(req.qid), 0x1);
      RunStep(p, 0, start);
      for bdx := 0 to TILE_COUNT
        invariant Valid() && Local(regs, 0) == Run(p, 1 + bdx, start)
      {
        Write32(TqBar1(req.qid, bdx), Lower32(req.bar[bdx]));
        RunStep(p, 1 + bdx, start);
      }
      Write32(TqSize1(req.qid), SizeWord(req.td_size));
      RunStep(p, 33, start);
      assert Local(regs, 0) == Run(p, 34, start);
      Write32(TqAddr1(req.qid), Lower32(req.btsp_iova));
      RunStep(p, 34, start);
      assert Local(regs, 0) == Run(p, 35, start);
      Write32(TqNid1(req.qid), NidWord(req.nid));
      RunStep(p, 35, start);
      err := 0;
    }

    /** `ane_tm_push_tq`. */
    method PushTq(req: Request)
      requires Valid() && req.Valid()
      modifies this`regs
      ensures Valid() && regs == Run(Execute(req), 5, Local(old(regs), 0)).regs
    {
      ghost var p, start := Execute(req), Local(regs, 0);
      assert start == Run(p, 0, start);
      assert Exists(TmAddr) && Exists(TmInfo) && Exists(TmPush);
      assert Exists(TqAddr1(req.qid)) && Exists(TqSize1(req.qid));
      hide Exists, Run, Get, Set, Or, Address, Complete, Priority;
      var addr := Read32(TqAddr1(req.qid));
      RunStep(p, 0, start);
      assert Local(regs, addr) == Run(p, 1, start);
      Write32(TmAddr, Or(addr, 0));
      RunStep(p, 1, start);
      assert Local(regs, addr) == Run(p, 2, start);
      var size := Read32(TqSize1(req.qid));
      RunStep(p, 2, start);
      assert Local(regs, size) == Run(p, 3, start);
      Write32(TmInfo, Or(size, req.td_count));
      RunStep(p, 3, start);
      assert Local(regs, size) == Run(p, 4, start);
      Write32(TmPush, PushWord(req.qid));
      RunStep(p, 4, start);
    }

    /** The poll either sees the idle bit or times out; the hardware decides. */
    method GetStatus() returns (err: int)
      modifies this`sawIdle
      ensures err == if sawIdle then 0 else -110
    {
      if * {
        sawIdle := true;
        err := 0;
      } else {
        sawIdle := false;
        err := -110;
      }
    }

    method TmExecute(req: Request) returns (err: int)
      requires Valid() && req.Valid()
      modifies this`regs, this`sawIdle
      ensures Valid() && regs == Run(Execute(req), 9, Local(old(regs), 0)).regs
      ensures err == if sawIdle then 0 else -110
    {
      hide Run, Get, Set, Or, Address, Complete, Priority;
      ghost var p, start := Execute(req), Local(regs, 0);
      PushTq(req);
      err := GetStatus();
      RunStep(p, 5, start);
      var ack := Read32(TmIrqAck);
      RunStep(p, 6, start);
      Write32(TmIrqAck, Or(ack, 2));
      RunStep(p, 7, start);
      Write32(TqStatus(req.qid), 0x0);
      RunStep(p, 8, start);
    }
  }
}
