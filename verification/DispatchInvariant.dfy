/** Safety of the dispatch protocol: who owns each interface in every reachable
    state, and what that ownership rules out. */
module DispatchInvariant {
  import opened InterruptSources
  import opened Dispatch

  function Count(b: bool): nat { if b then 1 else 0 }

  // ----- the five owners of an interface: its interrupt line, the interrupt
  // handler, the receiver, the processor's queue and the processor

  predicate AtReceiver(s: State, i: Source) {
    if i == Psu then
      || s.rpc.RReadPsu? || s.rpc.RUnmaskPsu?
      || (s.cur == Psu && (s.rpc.RMark? || s.rpc.RDispatch? || s.rpc.RReject? || s.rpc.RClear?))
    else
      || s.rpc.RReadFifo? || s.rpc.RResetFifo? || s.rpc.RResetReset? || s.rpc.RUnmaskData? || s.rpc.RUnmaskReset?
      || (s.cur != Psu && (s.rpc.RMark? || s.rpc.RDispatch? || s.rpc.RReject? || s.rpc.RClear?))
  }

  predicate AtProcessor(s: State, i: Source) {
    if i == Psu then
      s.src.proc.psu || s.ppc.PUnmaskPsu?
    else
      s.src.proc.fifo || s.ppc.PUnmaskData? || s.ppc.PUnmaskReset?
  }

  /** Waiting for the receiver: the handler's bit is set and not yet taken. A FIFO
      reset request belongs to the FIFO interface. */
  predicate Pending(s: State, i: Source) {
    && !AtReceiver(s, i)
    && (s.src.intr.Has(i) || (i == Fifo && s.src.intr.reset))
  }

  /** Waiting for the processor. */
  predicate Queued(s: State, i: Source) {
    !AtReceiver(s, i) && !AtProcessor(s, i) && s.src.rx.Has(i)
  }

  predicate Unmasked(s: State, i: Source) {
    if i == Psu then s.psuIrq else s.dataIrq && s.resetIrq
  }

  function Owners(s: State, i: Source): nat {
    Count(Unmasked(s, i)) + Count(Pending(s, i)) + Count(AtReceiver(s, i))
      + Count(Queued(s, i)) + Count(AtProcessor(s, i))
  }

  // ----- the inductive invariant

  predicate MaskShape(s: State) {
    && (s.dataIrq <==> s.resetIrq || MidUnmask(s))
    && (MidUnmask(s) ==> !s.resetIrq)
    && (s.rpc.RTakePsu? ==> s.src.intr.psu)
    && (s.rpc.RTakeFifo? ==> s.src.intr.fifo)
    && !(s.src.intr.fifo && s.src.intr.reset)
    && (AtReceiver(s, Psu) ==> !s.src.intr.psu)
    && (AtReceiver(s, Fifo) ==> !s.src.intr.fifo)
    && (AtReceiver(s, Fifo) ==>
          (s.src.intr.reset <==> s.cur == Reset && ((s.rpc.RMark? || s.rpc.RDispatch? || s.rpc.RResetFifo? || s.rpc.RResetReset?))))
    && (s.src.rx.reset <==> s.cur == Reset && (s.rpc.RDispatch? || s.rpc.RResetFifo? || s.rpc.RResetReset?))
    && !s.src.proc.reset
  }

  predicate ReceiverShape(s: State) {
    && (s.rpc.RReadPsu? ==> s.cur == Psu)
    && (s.rpc.RReadFifo? ==> s.cur == Fifo)
    && ((s.rpc.RMark? || s.rpc.RDispatch?) ==> (s.cur == Reset ==> s.rc == ResetReceived))
    && ((s.rpc.RMark? || s.rpc.RDispatch?) && s.cur == Psu ==> s.rc != ResetReceived)
    && ((s.rpc.RReject? || s.rpc.RClear?) ==> s.cur != Reset)
    && ((s.rpc.RResetFifo? || s.rpc.RResetReset?) ==> s.cur != Psu)
    && ((s.rpc.RDispatch? || s.rpc.RResetFifo? || s.rpc.RReject? || s.rpc.RClear?) ==> s.src.rx.Has(s.cur))
    && (AtReceiver(s, Psu) && !(s.rpc.RDispatch? || s.rpc.RReject? || s.rpc.RClear?) ==> !s.src.rx.psu)
    && (AtReceiver(s, Fifo) && !(s.cur == Fifo && (s.rpc.RDispatch? || s.rpc.RReject? || s.rpc.RClear? || s.rpc.RResetFifo?)) ==> !s.src.rx.fifo)
  }

  /** The processor's mask names the one interface it serves, from the moment it
      loads the header until it clears the masks. */
  predicate ProcessorShape(s: State) {
    && (s.src.proc.psu ==> s.src.rx.psu)
    && (s.src.proc.fifo ==> s.src.rx.fifo)
    && !(s.src.proc.psu && s.src.proc.fifo)
    && (s.src.proc.psu || s.src.proc.fifo <==> s.ppc.PRun? || s.ppc.PRespond? || s.ppc.PClear?)
    && (s.ppc.PRun? ==> s.ppc.local == if s.src.proc.psu then s.psuHdr else s.fifoHdr)
    && (s.ppc.PClear? ==> s.ppc.clearing != Reset && s.src.proc.Has(s.ppc.clearing))
    && (s.ppc.PLoad? ==> s.ppc.loading != Reset && Queued(s, s.ppc.loading))
    && (s.ppc.PUnmaskPsu? ==> !s.src.rx.psu)
    && (s.ppc.PUnmaskData? || s.ppc.PUnmaskReset? ==> !s.src.rx.fifo)
  }

  predicate Semaphores(s: State) {
    && s.recvSem + Count((s.rpc.RCheck? || s.rpc.RTakePsu? || s.rpc.RTakeFifo?))
         == Count(Pending(s, Psu)) + Count(Pending(s, Fifo))
    && s.procSem + Count(s.ppc.PCheck? || s.ppc.PLoad?)
         == Count(Queued(s, Psu)) + Count(Queued(s, Fifo))
  }

  /** A header the processor will act on names a command it can run. */
  predicate Runnable(h: Header, table: set<Command>) {
    h.status == Clean ==> h.command in table
  }

  predicate HeaderReady(s: State, i: Source) {
    || Queued(s, i)
    || (s.ppc.PRun? && s.src.proc.Has(i))
    || ((s.rpc.RMark? || s.rpc.RDispatch?) && s.cur == i && s.rc == Success)
  }

  predicate Headers(s: State, table: set<Command>) {
    && (HeaderReady(s, Psu) ==> Runnable(s.psuHdr, table))
    && (HeaderReady(s, Fifo) ==> Runnable(s.fifoHdr, table))
  }

  /** Interrupts taken but not yet answered by a response or a reset. */
  function Unanswered(s: State, i: Source): nat {
    if Pending(s, i) || Queued(s, i) then 1
    else if AtReceiver(s, i) then Count(!(s.rpc.RClear? || s.rpc.RResetReset? || s.rpc.RUnmaskPsu? || s.rpc.RUnmaskData? || s.rpc.RUnmaskReset?))
    else if AtProcessor(s, i) then Count(s.ppc.PRun? || s.ppc.PRespond?)
    else 0
  }

  predicate Accounts(s: State) {
    && s.psu.irqs == s.psu.responses + s.psu.resets + Unanswered(s, Psu)
    && s.fifo.irqs == s.fifo.responses + s.fifo.resets + Unanswered(s, Fifo)
    && s.psu.posted == s.psu.served + (if Queued(s, Psu) then [s.psuHdr] else [])
    && s.fifo.posted == s.fifo.served + (if Queued(s, Fifo) then [s.fifoHdr] else [])
  }

  predicate Inv(s: State, table: set<Command>) {
    && s.fault in {NoFault, Halted}
    && Owners(s, Psu) == 1 && Owners(s, Fifo) == 1
    && MaskShape(s) && ReceiverShape(s) && ProcessorShape(s)
    && Semaphores(s) && Headers(s, table) && Accounts(s)
  }

  lemma InitInv(s: State, table: set<Command>)
    requires Init(s)
    ensures Inv(s, table)
  {
  }

  // ----- one step keeps the invariant, program counter by program counter

  lemma IrqPsuKeeps(s: State, table: set<Command>)
    requires Inv(s, table) && Enabled(s, IrqPsu)
    ensures Inv(Next(s, table, IrqPsu), table)
  {
  }

  lemma IrqDataKeeps(s: State, table: set<Command>)
    requires Inv(s, table) && Enabled(s, IrqData)
    ensures Inv(Next(s, table, IrqData), table) <==> !MidUnmask(s)
  {
  }

  lemma IrqResetKeeps(s: State, table: set<Command>)
    requires Inv(s, table) && Enabled(s, IrqReset)
    ensures Inv(Next(s, table, IrqReset), table)
  {
  }

  lemma RecvWakeKeeps(s: State, table: set<Command>, f: Fetch)
    requires Inv(s, table) && Enabled(s, Recv(f)) && s.rpc.RWait?
    ensures Inv(Next(s, table, Recv(f)), table)
  {
  }

  lemma RecvCheckKeeps(s: State, table: set<Command>, f: Fetch)
    requires Inv(s, table) && Enabled(s, Recv(f)) && s.rpc.RCheck?
    ensures Inv(Next(s, table, Recv(f)), table)
  {
    if s.src.intr.reset {
      RecvCheckResetKeeps(s, table, f);
    } else if s.src.intr.psu {
      RecvCheckPsuKeeps(s, table, f);
    } else {
      RecvCheckFifoKeeps(s, table, f);
    }
  }

  lemma RecvCheckResetKeeps(s: State, table: set<Command>, f: Fetch)
    requires Inv(s, table) && Enabled(s, Recv(f)) && s.rpc.RCheck? && s.src.intr.reset
    ensures Inv(Next(s, table, Recv(f)), table)
  {
  }

  lemma RecvCheckPsuKeeps(s: State, table: set<Command>, f: Fetch)
    requires Inv(s, table) && Enabled(s, Recv(f)) && s.rpc.RCheck? && s.src.intr.psu && !s.src.intr.reset
    ensures Inv(Next(s, table, Recv(f)), table)
  {
    if s.src.intr.fifo {
      RecvCheckBothKeeps(s, table, f);
    } else {
      RecvCheckPsuAloneKeeps(s, table, f);
    }
  }

  lemma RecvCheckBothKeeps(s: State, table: set<Command>, f: Fetch)
    requires Inv(s, table) && Enabled(s, Recv(f)) && s.rpc.RCheck? && s.src.intr == Mask(true, true, false)
    ensures Inv(Next(s, table, Recv(f)), table)
  {
  }

  lemma RecvCheckPsuAloneKeeps(s: State, table: set<Command>, f: Fetch)
    requires Inv(s, table) && Enabled(s, Recv(f)) && s.rpc.RCheck? && s.src.intr == Mask(false, true, false)
    ensures Inv(Next(s, table, Recv(f)), table)
  {
  }

  lemma RecvCheckFifoKeeps(s: State, table: set<Command>, f: Fetch)
    requires Inv(s, table) && Enabled(s, Recv(f)) && s.rpc.RCheck? && !s.src.intr.psu && !s.src.intr.reset
    ensures Inv(Next(s, table, Recv(f)), table)
  {
  }

  lemma RecvTakeKeeps(s: State, table: set<Command>, f: Fetch)
    requires Inv(s, table) && Enabled(s, Recv(f)) && (s.rpc.RTakePsu? || s.rpc.RTakeFifo?)
    ensures Inv(Next(s, table, Recv(f)), table)
  {
  }

  lemma RecvReadKeeps(s: State, table: set<Command>, f: Fetch)
    requires Inv(s, table) && Enabled(s, Recv(f)) && (s.rpc.RReadPsu? || s.rpc.RReadFifo?)
    ensures Inv(Next(s, table, Recv(f)), table)
  {
    if s.rpc.RReadPsu? {
      RecvReadPsuKeeps(s, table, f);
    } else {
      RecvReadFifoKeeps(s, table, f);
    }
  }

  lemma RecvReadPsuKeeps(s: State, table: set<Command>, f: Fetch)
    requires Inv(s, table) && Enabled(s, Recv(f)) && s.rpc.RReadPsu?
    ensures Inv(Next(s, table, Recv(f)), table)
  {
  }

  lemma RecvReadFifoKeeps(s: State, table: set<Command>, f: Fetch)
    requires Inv(s, table) && Enabled(s, Recv(f)) && s.rpc.RReadFifo?
    ensures Inv(Next(s, table, Recv(f)), table)
  {
  }

  lemma RecvMarkKeeps(s: State, table: set<Command>, f: Fetch)
    requires Inv(s, table) && Enabled(s, Recv(f)) && s.rpc.RMark?
    ensures Inv(Next(s, table, Recv(f)), table)
  {
  }

  lemma RecvPostKeeps(s: State, table: set<Command>, f: Fetch)
    requires Inv(s, table) && Enabled(s, Recv(f)) && s.rpc.RDispatch? && s.rc.Success?
    ensures Inv(Next(s, table, Recv(f)), table)
  {
    if s.cur == Psu {
      RecvPostPsuKeeps(s, table, f);
    } else {
      RecvPostFifoKeeps(s, table, f);
    }
  }

  lemma RecvPostPsuKeeps(s: State, table: set<Command>, f: Fetch)
    requires Inv(s, table) && Enabled(s, Recv(f)) && s.rpc.RDispatch? && s.rc.Success? && s.cur == Psu
    ensures Inv(Next(s, table, Recv(f)), table)
  {
  }

  lemma RecvPostFifoKeeps(s: State, table: set<Command>, f: Fetch)
    requires Inv(s, table) && Enabled(s, Recv(f)) && s.rpc.RDispatch? && s.rc.Success? && s.cur != Psu
    ensures Inv(Next(s, table, Recv(f)), table)
  {
  }

  lemma RecvStartResetKeeps(s: State, table: set<Command>, f: Fetch)
    requires Inv(s, table) && Enabled(s, Recv(f)) && s.rpc.RDispatch? && s.rc.ResetReceived?
    ensures Inv(Next(s, table, Recv(f)), table)
  {
  }

  lemma RecvStartRejectKeeps(s: State, table: set<Command>, f: Fetch)
    requires Inv(s, table) && Enabled(s, Recv(f)) && s.rpc.RDispatch? && s.rc.NotAllowed?
    ensures Inv(Next(s, table, Recv(f)), table)
  {
  }

  lemma RecvHaltKeeps(s: State, table: set<Command>, f: Fetch)
    requires Inv(s, table) && Enabled(s, Recv(f)) && s.rpc.RDispatch? && s.rc.AccessFailure?
    ensures Inv(Next(s, table, Recv(f)), table)
  {
  }

  lemma RecvResetFifoKeeps(s: State, table: set<Command>, f: Fetch)
    requires Inv(s, table) && Enabled(s, Recv(f)) && s.rpc.RResetFifo?
    ensures Inv(Next(s, table, Recv(f)), table)
  {
    if s.src.rx.fifo {
      RecvDropFifoKeeps(s, table, f);
    } else {
      RecvNoFifoKeeps(s, table, f);
    }
  }

  lemma RecvDropFifoKeeps(s: State, table: set<Command>, f: Fetch)
    requires Inv(s, table) && Enabled(s, Recv(f)) && s.rpc.RResetFifo? && s.src.rx.fifo
    ensures Inv(Next(s, table, Recv(f)), table)
  {
  }

  lemma RecvNoFifoKeeps(s: State, table: set<Command>, f: Fetch)
    requires Inv(s, table) && Enabled(s, Recv(f)) && s.rpc.RResetFifo? && !s.src.rx.fifo
    ensures Inv(Next(s, table, Recv(f)), table)
  {
  }

  lemma RecvResetResetKeeps(s: State, table: set<Command>, f: Fetch)
    requires Inv(s, table) && Enabled(s, Recv(f)) && s.rpc.RResetReset?
    ensures Inv(Next(s, table, Recv(f)), table)
  {
    if s.src.rx.reset {
      RecvResetTakenKeeps(s, table, f);
    } else {
      RecvResetDoneKeeps(s, table, f);
    }
  }

  lemma RecvResetTakenKeeps(s: State, table: set<Command>, f: Fetch)
    requires Inv(s, table) && Enabled(s, Recv(f)) && s.rpc.RResetReset? && s.src.rx.reset
    ensures Inv(Next(s, table, Recv(f)), table)
  {
  }

  lemma RecvResetDoneKeeps(s: State, table: set<Command>, f: Fetch)
    requires Inv(s, table) && Enabled(s, Recv(f)) && s.rpc.RResetReset? && !s.src.rx.reset
    ensures Inv(Next(s, table, Recv(f)), table)
  {
  }

  lemma RecvRejectKeeps(s: State, table: set<Command>, f: Fetch)
    requires Inv(s, table) && Enabled(s, Recv(f)) && s.rpc.RReject?
    ensures Inv(Next(s, table, Recv(f)), table)
  {
  }

  lemma RecvClearKeeps(s: State, table: set<Command>, f: Fetch)
    requires Inv(s, table) && Enabled(s, Recv(f)) && s.rpc.RClear?
    ensures Inv(Next(s, table, Recv(f)), table)
  {
  }

  lemma RecvUnmaskKeeps(s: State, table: set<Command>, f: Fetch)
    requires Inv(s, table) && Enabled(s, Recv(f)) && (s.rpc.RUnmaskPsu? || s.rpc.RUnmaskData? || s.rpc.RUnmaskReset?)
    ensures Inv(Next(s, table, Recv(f)), table)
  {
  }

  lemma ProcWakeKeeps(s: State, table: set<Command>)
    requires Inv(s, table) && Enabled(s, Proc) && (s.ppc.PWait? || s.ppc.PCheck?)
    ensures Inv(Next(s, table, Proc), table)
  {
  }

  lemma ProcLoadKeeps(s: State, table: set<Command>)
    requires Inv(s, table) && Enabled(s, Proc) && s.ppc.PLoad?
    ensures Inv(Next(s, table, Proc), table)
  {
  }

  lemma ProcRunKeeps(s: State, table: set<Command>)
    requires Inv(s, table) && Enabled(s, Proc) && s.ppc.PRun?
    ensures Inv(Next(s, table, Proc), table)
  {
    if s.ppc.local.status != Clean {
      ProcSkipKeeps(s, table);
    } else if s.src.proc.psu {
      ProcRunPsuKeeps(s, table);
    } else {
      ProcRunFifoKeeps(s, table);
    }
  }

  lemma ProcSkipKeeps(s: State, table: set<Command>)
    requires Inv(s, table) && Enabled(s, Proc) && s.ppc.PRun? && s.ppc.local.status != Clean
    ensures Inv(Next(s, table, Proc), table)
  {
  }

  lemma ProcRunPsuKeeps(s: State, table: set<Command>)
    requires Inv(s, table) && Enabled(s, Proc) && s.ppc.PRun? && s.ppc.local.status == Clean && s.src.proc.psu
    ensures Inv(Next(s, table, Proc), table)
  {
  }

  lemma ProcRunFifoKeeps(s: State, table: set<Command>)
    requires Inv(s, table) && Enabled(s, Proc) && s.ppc.PRun? && s.ppc.local.status == Clean && !s.src.proc.psu
    ensures Inv(Next(s, table, Proc), table)
  {
  }

  lemma ProcRespondKeeps(s: State, table: set<Command>)
    requires Inv(s, table) && Enabled(s, Proc) && s.ppc.PRespond?
    ensures Inv(Next(s, table, Proc), table)
  {
  }

  lemma ProcClearKeeps(s: State, table: set<Command>)
    requires Inv(s, table) && Enabled(s, Proc) && s.ppc.PClear?
    ensures Inv(Next(s, table, Proc), table)
  {
  }

  lemma ProcUnmaskKeeps(s: State, table: set<Command>)
    requires Inv(s, table) && Enabled(s, Proc) && (s.ppc.PUnmaskPsu? || s.ppc.PUnmaskData? || s.ppc.PUnmaskReset?)
    ensures Inv(Next(s, table, Proc), table)
  {
  }

  /** Every step keeps the invariant, except a FIFO data interrupt taken between
      the two enables of the FIFO pair, which always breaks it. */
  lemma StepKeeps(s: State, table: set<Command>, a: Action)
    requires Inv(s, table) && Enabled(s, a)
    ensures Inv(Next(s, table, a), table) <==> Timely(s, a)
  {
    match a
    case IrqPsu => IrqPsuKeeps(s, table);
    case IrqData => IrqDataKeeps(s, table);
    case IrqReset => IrqResetKeeps(s, table);
    case Proc => ProcKeeps(s, table);
    case Recv(f) => RecvKeeps(s, table, f);
  }

  lemma RecvKeeps(s: State, table: set<Command>, f: Fetch)
    requires Inv(s, table) && Enabled(s, Recv(f))
    ensures Inv(Next(s, table, Recv(f)), table)
  {
    match s.rpc
    case RWait => RecvWakeKeeps(s, table, f);
    case RCheck => RecvCheckKeeps(s, table, f);
    case RTakePsu | RTakeFifo => RecvTakeKeeps(s, table, f);
    case RReadPsu | RReadFifo => RecvReadKeeps(s, table, f);
    case RMark => RecvMarkKeeps(s, table, f);
    case RDispatch => RecvDispatchKeeps(s, table, f);
    case RResetFifo => RecvResetFifoKeeps(s, table, f);
    case RResetReset => RecvResetResetKeeps(s, table, f);
    case RReject => RecvRejectKeeps(s, table, f);
    case RClear => RecvClearKeeps(s, table, f);
    case RUnmaskPsu | RUnmaskData | RUnmaskReset => RecvUnmaskKeeps(s, table, f);
  }

  lemma RecvDispatchKeeps(s: State, table: set<Command>, f: Fetch)
    requires Inv(s, table) && Enabled(s, Recv(f)) && s.rpc.RDispatch?
    ensures Inv(Next(s, table, Recv(f)), table)
  {
    match s.rc
    case Success => RecvPostKeeps(s, table, f);
    case ResetReceived => RecvStartResetKeeps(s, table, f);
    case NotAllowed => RecvStartRejectKeeps(s, table, f);
    case AccessFailure => RecvHaltKeeps(s, table, f);
  }

  lemma ProcKeeps(s: State, table: set<Command>)
    requires Inv(s, table) && Enabled(s, Proc)
    ensures Inv(Next(s, table, Proc), table)
  {
    match s.ppc
    case PWait | PCheck => ProcWakeKeeps(s, table);
    case PLoad(_) => ProcLoadKeeps(s, table);
    case PRun(_) => ProcRunKeeps(s, table);
    case PRespond => ProcRespondKeeps(s, table);
    case PClear(_) => ProcClearKeeps(s, table);
    case PUnmaskPsu | PUnmaskData | PUnmaskReset => ProcUnmaskKeeps(s, table);
  }
}
