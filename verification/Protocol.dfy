/** Interleavings of threads that submit requests and threads that resume the device.

    A submitting thread takes `engine_lock`, runs `tm_enqueue` and `tm_execute` one register
    access at a time, and releases the lock; a resuming thread runs `tm_enable` without any lock.
    The hardware may change every register that is not listed in `DriverOwned` at any moment. */
module Protocol {
  import opened Bits
  import opened Engine
  import RegisterValues
  import opened Wrappers

  type Tid = nat

  /** Where a thread is; `tmp` is its local variable. */
  datatype Thread =
    | Submitter(req: Request, pc: nat, tmp: nat)
    | Resumer(pc: nat, tmp: nat)

  datatype State = State(regs: Registers, engineLock: Option<Tid>, threads: map<Tid, Thread>)

  const SUBMIT_LENGTH := 47
  const PUSH := 41

  datatype Action = Lock | Unlock | Use(access: Access)

  predicate ValidThread(t: Thread) {
    match t
    case Submitter(req, pc, _) => req.Valid() && pc <= SUBMIT_LENGTH
    case Resumer(pc, _) => pc <= Enable.Length()
  }

  predicate Running(t: Thread) {
    match t
    case Submitter(_, pc, _) => pc < SUBMIT_LENGTH
    case Resumer(pc, _) => pc < Enable.Length()
  }

  /** The next action of a thread. */
  function Next(t: Thread): Action
    requires ValidThread(t) && Running(t)
  {
    match t
    case Submitter(req, pc, _) =>
      if pc == 0 then Lock
      else if pc < 37 then Use(Enqueue(req).At(pc - 1))
      else if pc < 46 then Use(Execute(req).At(pc - 37))
      else Unlock
    case Resumer(pc, _) => Use(Enable.At(pc))
  }

  function Moved(t: Thread, tmp: nat): Thread {
    match t
    case Submitter(req, pc, _) => Submitter(req, pc + 1, tmp)
    case Resumer(pc, _) => Resumer(pc + 1, tmp)
  }

  /** The configuration registers of the queues and the two task-manager words made from them. */
  predicate DriverOwned(r: Reg) {
    r.TqBar1? || r.TqSize1? || r.TqAddr1? || r.TqNid1? || r.TmAddr? || r.TmInfo?
  }

  ghost predicate Valid(s: State) {
    Complete(s.regs) && forall t | t in s.threads :: ValidThread(s.threads[t])
  }

  ghost predicate Init(s: State) {
    Complete(s.regs) && s.engineLock == None && s.threads == map[]
  }

  /** Thread `t` performs its next action; it can do so only if the lock permits. */
  ghost predicate ThreadStep(s: State, s': State, t: Tid)
    requires Valid(s)
  {
    t in s.threads && Running(s.threads[t]) &&
    var th := s.threads[t];
    match Next(th)
    case Lock =>
      s.engineLock == None && s' == State(s.regs, Some(t), s.threads[t := Moved(th, th.tmp)])
    case Unlock =>
      s' == State(s.regs, None, s.threads[t := Moved(th, th.tmp)])
    case Use(a) =>
      var l := Do(a, Local(s.regs, th.tmp));
      s' == State(l.regs, s.engineLock, s.threads[t := Moved(th, l.tmp)])
  }

  /** A new call begins on a thread that is idle or not yet known. */
  ghost predicate CallStep(s: State, s': State, t: Tid, th: Thread) {
    (t in s.threads ==> !Running(s.threads[t])) &&
    ValidThread(th) && th.pc == 0 &&
    s' == s.(threads := s.threads[t := th])
  }

  ghost predicate HardwareStep(s: State, s': State)
    requires Valid(s)
  {
    Complete(s'.regs) &&
    (forall r: Reg | Exists(r) && DriverOwned(r) :: Get(s'.regs, r) == Get(s.regs, r)) &&
    s' == s.(regs := s'.regs)
  }

  ghost predicate Step(s: State, s': State)
    requires Valid(s)
  {
    (exists t :: ThreadStep(s, s', t)) || (exists t, th :: CallStep(s, s', t, th)) || HardwareStep(s, s')
  }

  // ----- The invariant -----

  /** The value that request `req` puts in each register the driver owns. */
  function Intended(req: Request, r: Reg): nat
    requires req.Valid() && Exists(r) && DriverOwned(r)
  {
    match r
    case TqBar1(_, bdx) => Lower32(req.bar[bdx])
    case TqSize1(_) => SizeWord(req.td_size)
    case TqAddr1(_) => Lower32(req.btsp_iova)
    case TqNid1(_) => NidWord(req.nid)
    case TmAddr => Lower32(req.btsp_iova)
    case TmInfo => Or(SizeWord(req.td_size), req.td_count)
  }

  /** The program position from which on the register holds that value. */
  function WrittenAt(r: Reg): nat
    requires DriverOwned(r)
  {
    match r
    case TqBar1(_, bdx) => 3 + bdx
    case TqSize1(_) => 35
    case TqAddr1(_) => 36
    case TqNid1(_) => 37
    case TmAddr => 39
    case TmInfo => 41
  }

  /** The registers a request uses: those of its queue, and the task manager's. */
  predicate Uses(req: Request, r: Reg) {
    Exists(r) && DriverOwned(r) && (OfQueue(r) ==> r.qid == req.qid)
  }

  /** What the holder of the lock has established at its position. */
  ghost predicate Progress(regs: Registers, req: Request, pc: nat, tmp: nat)
    requires Complete(regs) && req.Valid()
  {
    (forall r: Reg | Uses(req, r) && pc >= WrittenAt(r) :: Get(regs, r) == Intended(req, r)) &&
    (pc == 38 ==> tmp == Lower32(req.btsp_iova)) &&
    (pc == 40 ==> tmp == SizeWord(req.td_size))
  }

  predicate Inside(t: Thread) {
    t.Submitter? && 1 <= t.pc < SUBMIT_LENGTH
  }

  ghost predicate Invariant(s: State) {
    Valid(s) &&
    (forall t | t in s.threads && Inside(s.threads[t]) ::
      s.engineLock == Some(t) && Progress(s.regs, s.threads[t].req, s.threads[t].pc, s.threads[t].tmp))
  }

  /** What the hardware finds when TM_PUSH is written: one request, complete. */
  ghost predicate Coherent(regs: Registers, req: Request)
    requires Complete(regs) && req.Valid()
  {
    Get(regs, TmAddr) == Lower32(req.btsp_iova) &&
    Get(regs, TmInfo) == Or(SizeWord(req.td_size), req.td_count) &&
    (forall bdx: nat | bdx < TILE_COUNT :: Get(regs, TqBar1(req.qid, bdx)) == Lower32(req.bar[bdx])) &&
    Get(regs, TqSize1(req.qid)) == SizeWord(req.td_size) &&
    Get(regs, TqAddr1(req.qid)) == Lower32(req.btsp_iova) &&
    Get(regs, TqNid1(req.qid)) == NidWord(req.nid)
  }

  /** A resuming thread never touches a register of a request. */
  lemma EnableIsHarmless(k: nat, l: Local, r: Reg)
    requires Complete(l.regs) && k < Enable.Length() && Exists(r) && DriverOwned(r)
    ensures Get(Do(Enable.At(k), l).regs, r) == Get(l.regs, r)
  {
    hide Get, Set, Complete, Do, Priority;
    DoFrame(Enable.At(k), l, r);
  }

  /** The lock holder advances: what it had established stays, and one thing is added. */
  lemma HolderAdvances(req: Request, pc: nat, l: Local)
    requires Complete(l.regs) && req.Valid() && 1 <= pc < 46 && Progress(l.regs, req, pc, l.tmp)
    ensures var th := Submitter(req, pc, l.tmp);
      var l' := Do(Next(th).access, l);
      Progress(l'.regs, req, pc + 1, l'.tmp)
  {
    var th := Submitter(req, pc, l.tmp);
    var a := Next(th).access;
    var l' := Do(a, l);
    forall r: Reg | Uses(req, r) && pc + 1 >= WrittenAt(r)
      ensures Get(l'.regs, r) == Intended(req, r)
    {
      HolderWrites(req, pc, l, r);
    }
    if pc == 37 {
      assert Uses(req, TqAddr1(req.qid));
    } else if pc == 39 {
      assert Uses(req, TqSize1(req.qid));
    }
  }

  lemma HolderWrites(req: Request, pc: nat, l: Local, r: Reg)
    requires Complete(l.regs) && req.Valid() && 1 <= pc < 46 && Progress(l.regs, req, pc, l.tmp)
    requires Uses(req, r) && pc + 1 >= WrittenAt(r)
    ensures Get(Do(Next(Submitter(req, pc, l.tmp)).access, l).regs, r) == Intended(req, r)
  {
    var a := Next(Submitter(req, pc, l.tmp)).access;
    if pc + 1 == WrittenAt(r) {
      RegisterValues.OrWithZero(Lower32(req.btsp_iova));
      WriterIs(req, pc, r);
    } else {
      assert Get(l.regs, r) == Intended(req, r);
      if !a.Poll? && !a.Load? && a.reg == r {
        WriterIs(req, pc, r);
      } else {
        DoFrame(a, l, r);
      }
    }
  }

  /** In a submission, each register of the request is written at one position only. */
  lemma WriterIs(req: Request, pc: nat, r: Reg)
    requires req.Valid() && 1 <= pc < 46 && Uses(req, r)
    ensures var a := Next(Submitter(req, pc, 0)).access;
      (!a.Poll? && !a.Load? && a.reg == r) <==> pc + 1 == WrittenAt(r)
    ensures pc + 1 == WrittenAt(r) ==>
      var a := Next(Submitter(req, pc, 0)).access;
      a == match r
        case TmAddr => Store(TmAddr, 0)
        case TmInfo => Store(TmInfo, req.td_count)
        case _ => Put(r, Intended(req, r))
  {
  }

  lemma HardwareKeepsProgress(regs: Registers, regs': Registers, req: Request, pc: nat, tmp: nat)
    requires Complete(regs) && Complete(regs') && req.Valid() && Progress(regs, req, pc, tmp)
    requires forall r: Reg | Uses(req, r) :: Get(regs', r) == Get(regs, r)
    ensures Progress(regs', req, pc, tmp)
  {
    hide Get, Complete, Intended;
  }

  lemma ThreadKeepsInvariant(s: State, s': State, t: Tid)
    requires Invariant(s) && ThreadStep(s, s', t)
    ensures Invariant(s')
  {
    hide Progress, Complete, Get, Do, Program.At;
    var th := s.threads[t];
    if th.Submitter? && th.pc == 0 {
      FreshProgress(s.regs, th.req, th.tmp);
    } else if th.Submitter? && th.pc < 46 {
      HolderAdvances(th.req, th.pc, Local(s.regs, th.tmp));
    } else if th.Resumer? {
      forall u | u in s.threads && Inside(s.threads[u])
        ensures Progress(s'.regs, s.threads[u].req, s.threads[u].pc, s.threads[u].tmp)
      {
        var o := s.threads[u];
        ResumeKeepsProgress(th.pc, Local(s.regs, th.tmp), o.req, o.pc, o.tmp);
      }
    }
  }

  lemma FreshProgress(regs: Registers, req: Request, tmp: nat)
    requires Complete(regs) && req.Valid()
    ensures Progress(regs, req, 1, tmp)
  {
  }

  lemma ResumeKeepsProgress(k: nat, l: Local, req: Request, pc: nat, tmp: nat)
    requires Complete(l.regs) && k < Enable.Length() && req.Valid() && Progress(l.regs, req, pc, tmp)
    ensures Progress(Do(Enable.At(k), l).regs, req, pc, tmp)
  {
    hide Progress, Complete, Get, Do;
    forall r: Reg | Uses(req, r) ensures Get(Do(Enable.At(k), l).regs, r) == Get(l.regs, r) {
      EnableIsHarmless(k, l, r);
    }
    HardwareKeepsProgress(l.regs, Do(Enable.At(k), l).regs, req, pc, tmp);
  }

  lemma StepKeepsInvariant(s: State, s': State)
    requires Invariant(s) && Step(s, s')
    ensures Invariant(s')
  {
    hide Progress, Complete, Get, ThreadStep;
    if t :| ThreadStep(s, s', t) {
      ThreadKeepsInvariant(s, s', t);
    } else if HardwareStep(s, s') {
      forall u | u in s.threads && Inside(s.threads[u])
        ensures Progress(s'.regs, s.threads[u].req, s.threads[u].pc, s.threads[u].tmp)
      {
        var o := s.threads[u];
        HardwareKeepsProgress(s.regs, s'.regs, o.req, o.pc, o.tmp);
      }
    }
  }

  // ----- Runs -----

  /** A run of the system: any number of threads, in any interleaving. */
  ghost predicate IsRun(run: seq<State>) {
    |run| > 0 && Init(run[0]) &&
    forall i | 0 <= i < |run| - 1 :: Valid(run[i]) && Step(run[i], run[i + 1])
  }

  lemma {:induction false} RunKeepsInvariant(run: seq<State>, i: nat)
    requires IsRun(run) && i < |run|
    ensures Invariant(run[i])
  {
    if i > 0 {
      RunKeepsInvariant(run, i - 1);
      StepKeepsInvariant(run[i - 1], run[i]);
    }
  }

  /** Thread `t` is about to write the register `r`. */
  ghost predicate AboutToWrite(s: State, t: Tid, r: Reg)
    requires Valid(s)
  {
    t in s.threads && Running(s.threads[t]) && Next(s.threads[t]).Use? &&
    var a := Next(s.threads[t]).access;
    (a.Put? || a.Store?) && Address(a.reg) == Address(r)
  }

  /** Only the push of a submission writes at the address of TM_PUSH. */
  lemma OnlyPushWrites(th: Thread)
    requires ValidThread(th) && Running(th) && Next(th).Use?
    requires (Next(th).access.Put? || Next(th).access.Store?) && Address(Next(th).access.reg) == Address(TmPush)
    ensures th.Submitter? && th.pc == PUSH
  {
    if Next(th).access.reg != TmPush {
      RegistersApart(Next(th).access.reg, TmPush);
    }
  }

  /** Whenever any thread writes TM_PUSH, in any run, it holds the lock; what it writes is its own
      queue with its priority; and TM_ADDR, TM_INFO and all registers of its queue hold the values
      of its own request. */
  lemma PushIsCoherent(run: seq<State>, i: nat, t: Tid)
    requires IsRun(run) && i < |run|
    requires Valid(run[i]) && AboutToWrite(run[i], t, TmPush)
    ensures run[i].engineLock == Some(t) && run[i].threads[t].Submitter?
    ensures var req := run[i].threads[t].req;
      Next(run[i].threads[t]) == Use(Put(TmPush, req.qid * 0x100 + RegisterValues.QueuePriority(req.qid)))
    ensures Coherent(run[i].regs, run[i].threads[t].req)
  {
    hide Complete, Get, Intended, PushWord, RegisterValues.QueuePriority;
    RunKeepsInvariant(run, i);
    var th := run[i].threads[t];
    OnlyPushWrites(th);
    RegisterValues.PushWordFields(th.req.qid);
    CompletedIsCoherent(run[i].regs, th.req, PUSH, th.tmp);
  }

  lemma CompletedIsCoherent(regs: Registers, req: Request, pc: nat, tmp: nat)
    requires Complete(regs) && req.Valid() && pc >= PUSH && Progress(regs, req, pc, tmp)
    ensures Coherent(regs, req)
  {
    hide Complete, Get;
    forall r: Reg | Uses(req, r) ensures Get(regs, r) == Intended(req, r) {
      assert WrittenAt(r) <= PUSH;
    }
    UsedIsCoherent(regs, req);
  }

  lemma UsedIsCoherent(regs: Registers, req: Request)
    requires Complete(regs) && req.Valid()
    requires forall r: Reg | Uses(req, r) :: Get(regs, r) == Intended(req, r)
    ensures Coherent(regs, req)
  {
    hide Complete, Get, Or, SizeWord, NidWord;
    assert Uses(req, TmAddr) && Uses(req, TmInfo);
    assert Uses(req, TqSize1(req.qid)) && Uses(req, TqAddr1(req.qid)) && Uses(req, TqNid1(req.qid));
    forall bdx: nat | bdx < TILE_COUNT ensures Get(regs, TqBar1(req.qid, bdx)) == Lower32(req.bar[bdx]) {
      assert Uses(req, TqBar1(req.qid, bdx));
    }
  }

  /** At no point of a run are two threads inside the engine. */
  lemma MutualExclusion(run: seq<State>, i: nat, t: Tid, u: Tid)
    requires IsRun(run) && i < |run|
    requires t in run[i].threads && u in run[i].threads
    requires Inside(run[i].threads[t]) && Inside(run[i].threads[u])
    ensures t == u
  {
    hide Progress;
    RunKeepsInvariant(run, i);
  }

  // ----- One submission on its own -----

  lemma {:induction false} EnqueueProgress(req: Request, regs: Registers, k: nat)
    requires Complete(regs) && req.Valid() && k <= 36
    ensures var l := Run(Enqueue(req), k, Local(regs, 0)); Progress(l.regs, req, k + 1, l.tmp)
  {
    hide Progress, Complete, Get, Do, Program.At;
    if k == 0 {
      FreshProgress(regs, req, 0);
    } else {
      EnqueueProgress(req, regs, k - 1);
      HolderAdvances(req, k, Run(Enqueue(req), k - 1, Local(regs, 0)));
    }
  }

  lemma {:induction false} ExecuteProgress(req: Request, regs: Registers, tmp: nat, k: nat)
    requires Complete(regs) && req.Valid() && k <= 9 && Progress(regs, req, 37, tmp)
    ensures var l := Run(Execute(req), k, Local(regs, 0)); Progress(l.regs, req, 37 + k, l.tmp)
  {
    hide Complete, Get, Do, Program.At;
    if k > 0 {
      hide Progress;
      ExecuteProgress(req, regs, tmp, k - 1);
      HolderAdvances(req, 36 + k, Run(Execute(req), k - 1, Local(regs, 0)));
    }
  }

  /** `tm_enqueue` followed by `tm_execute` leaves the request in the registers. */
  lemma SubmissionIsCoherent(req: Request, regs: Registers)
    requires Complete(regs) && req.Valid()
    ensures Coherent(Run(Execute(req), 9, Local(Run(Enqueue(req), 36, Local(regs, 0)).regs, 0)).regs, req)
  {
    hide Progress, Coherent, Complete, Run;
    EnqueueProgress(req, regs, 36);
    var l := Run(Enqueue(req), 36, Local(regs, 0));
    ExecuteProgress(req, l.regs, l.tmp, 9);
    var l' := Run(Execute(req), 9, Local(l.regs, 0));
    CompletedIsCoherent(l'.regs, req, 46, l'.tmp);
  }
}
