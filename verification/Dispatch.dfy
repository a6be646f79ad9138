/** The command dispatch protocol: the interrupt handler, the command receiver
    thread and the command processor thread, as one transition system.

    An interrupt handler runs to completion (its whole body is one step). A thread's
    steps end at its changes of shared objects: a semaphore, a source mask, a message
    header, an interrupt enable. Reads that lead up to such a change go with it: a thread
    looks at all the source bits it chooses by in one step, and the processor copies a
    header and sets its own bit in one. The processor thread has the lower priority, so it
    moves only while the receiver is blocked on its semaphore. */
module Dispatch {
  import opened InterruptSources

  type Command = nat

  /** What the receiver leaves in an interface's response header for the
      processor: everything but `Clean` makes the processor skip the chip-op. */
  datatype Status = Clean | BadData | BadCommand | Fenced

  datatype Header = Header(command: Command, status: Status)

  /** The receiver's `l_rc`. */
  datatype Rc = Success | ResetReceived | NotAllowed | AccessFailure

  datatype RecvPc =
    | RWait | RCheck | RTakePsu | RTakeFifo | RReadPsu | RReadFifo
    | RMark | RDispatch | RResetFifo | RResetReset
    | RReject | RClear | RUnmaskPsu | RUnmaskData | RUnmaskReset

  datatype ProcPc =
    | PWait | PCheck | PLoad(loading: Source) | PRun(local: Header) | PRespond
    | PClear(clearing: Source) | PUnmaskPsu | PUnmaskData | PUnmaskReset

  /** `Halted` is the firmware's own stop on a hardware access failure. The other
      faults are the code's assertions, which the protocol must never reach. */
  datatype Fault =
    | NoFault | Halted | SpuriousWake | UnexpectedInterrupt | NoCommandFunction
    | RecvSemaphoreOverflow | ProcSemaphoreOverflow

  /** What an interface has been through since start-up: interrupts taken, requests
      handed to the processor, requests the processor loaded, chip-ops it ran, responses,
      resets. */
  datatype History = History(irqs: nat, posted: seq<Header>, served: seq<Header>, ran: seq<Command>,
                             responses: nat, resets: nat)

  datatype State = State(
    src: Sources,
    psuIrq: bool, dataIrq: bool, resetIrq: bool,
    recvSem: nat, procSem: nat,
    rpc: RecvPc, cur: Source, rc: Rc,
    ppc: ProcPc,
    psuHdr: Header, fifoHdr: Header,
    psu: History, fifo: History,
    fault: Fault)

  const MAX_SEMAPHORE_COUNT: nat := 3

  /** What the interface hands the receiver when it reads a request header. */
  datatype Fetch =
    | Arrived(command: Command, allowed: bool)
    | OutOfSequence(partial: Command)
    | ResetSeen
    | Failed

  datatype Action = IrqPsu | IrqData | IrqReset | Recv(fetch: Fetch) | Proc

  const NEW_HISTORY := History(0, [], [], [], 0, 0)

  /** Masks clear, semaphores empty, interrupts enabled, both threads waiting. */
  ghost predicate Init(s: State) {
    && s.src == Sources(EMPTY, EMPTY, EMPTY)
    && s.psuIrq && s.dataIrq && s.resetIrq
    && s.recvSem == 0 && s.procSem == 0
    && s.rpc == RWait && s.ppc == PWait
    && s.psu == NEW_HISTORY && s.fifo == NEW_HISTORY
    && s.fault == NoFault
  }

  // ----- the interrupt handler

  function PostRecv(s: State): State {
    if s.recvSem + 1 > MAX_SEMAPHORE_COUNT then s.(fault := RecvSemaphoreOverflow)
    else s.(recvSem := s.recvSem + 1)
  }

  function Interrupt(s: State, a: Action): State
    requires !a.Recv? && !a.Proc?
  {
    match a
    case IrqPsu =>
      PostRecv(s.(src := Set(s.src, InterruptRoutine, Psu), psuIrq := false,
                  psu := s.psu.(irqs := s.psu.irqs + 1)))
    case IrqData =>
      PostRecv(s.(src := Set(s.src, InterruptRoutine, Fifo), resetIrq := false, dataIrq := false,
                  fifo := s.fifo.(irqs := s.fifo.irqs + 1)))
    case IrqReset =>
      PostRecv(s.(src := Set(s.src, InterruptRoutine, Reset), dataIrq := false, resetIrq := false,
                  fifo := s.fifo.(irqs := s.fifo.irqs + 1)))
  }

  // ----- the receiver thread

  /** Validation and fencing of a request that was read in full. */
  function Verdict(table: set<Command>, command: Command, allowed: bool): (Status, Rc) {
    if command !in table then (BadCommand, Success)
    else if !allowed then (Fenced, NotAllowed)
    else (Clean, Success)
  }

  function ReadPsu(s: State, table: set<Command>, f: Fetch): State {
    match f
    case Arrived(command, allowed) =>
      var v := Verdict(table, command, allowed);
      s.(psuHdr := Header(command, v.0), rc := v.1, rpc := RMark)
    case _ => s.(rc := AccessFailure, rpc := RMark)
  }

  function ReadFifo(s: State, table: set<Command>, f: Fetch): State {
    match f
    case Arrived(command, allowed) =>
      var v := Verdict(table, command, allowed);
      s.(fifoHdr := Header(command, v.0), rc := v.1, rpc := RMark)
    case OutOfSequence(partial) =>
      s.(fifoHdr := Header(partial, BadData), rc := Success, rpc := RMark)
    case ResetSeen => s.(rc := ResetReceived, rpc := RMark)
    case Failed => s.(rc := AccessFailure, rpc := RMark)
  }

  function HeaderOf(s: State, i: Source): Header {
    if i == Psu then s.psuHdr else s.fifoHdr
  }

  function Posted(s: State, i: Source): State {
    if i == Psu then s.(psu := s.psu.(posted := s.psu.posted + [s.psuHdr]))
    else s.(fifo := s.fifo.(posted := s.fifo.posted + [s.fifoHdr]))
  }

  function Dispatched(s: State): State {
    match s.rc
    case ResetReceived => s.(rpc := RResetFifo)
    case Success =>
      if s.procSem + 1 > MAX_SEMAPHORE_COUNT then s.(fault := ProcSemaphoreOverflow)
      else Posted(s.(procSem := s.procSem + 1, rpc := RWait), s.cur)
    case NotAllowed => s.(rpc := RReject)
    case AccessFailure => s.(fault := Halted)
  }

  function Responded(s: State, i: Source): State {
    if i == Psu then s.(psu := s.psu.(responses := s.psu.responses + 1))
    else s.(fifo := s.fifo.(responses := s.fifo.responses + 1))
  }

  function RecvNext(s: State, table: set<Command>, f: Fetch): State
    requires RecvReady(s)
  {
    match s.rpc
    case RWait => s.(recvSem := s.recvSem - 1, rpc := RCheck)
    case RCheck =>
      if IsSet(s.src, InterruptRoutine, Reset) then s.(rc := ResetReceived, cur := Reset, rpc := RMark)
      else if IsSet(s.src, InterruptRoutine, Psu) then s.(rpc := RTakePsu)
      else if IsSet(s.src, InterruptRoutine, Fifo) then s.(rpc := RTakeFifo)
      else s.(fault := SpuriousWake)
    case RTakePsu => s.(src := Clear(s.src, InterruptRoutine, Psu), cur := Psu, rpc := RReadPsu)
    case RTakeFifo => s.(src := Clear(s.src, InterruptRoutine, Fifo), cur := Fifo, rpc := RReadFifo)
    case RReadPsu => ReadPsu(s, table, f)
    case RReadFifo => ReadFifo(s, table, f)
    case RMark => s.(src := Set(s.src, RxRoutine, s.cur), rpc := RDispatch)
    case RDispatch => Dispatched(s)
    case RResetFifo =>
      (if IsSet(s.src, RxRoutine, Fifo) then s.(src := Clear(s.src, AllHandlers, Fifo)) else s)
        .(rpc := RResetReset, fifo := s.fifo.(resets := s.fifo.resets + 1))
    case RResetReset =>
      (if IsSet(s.src, RxRoutine, Reset) then s.(src := Clear(s.src, AllHandlers, Reset)) else s)
        .(rpc := RUnmaskData)
    case RReject =>
      if s.cur == Reset then s.(rpc := RWait) else Responded(s, s.cur).(rpc := RClear)
    case RClear =>
      s.(src := Clear(s.src, AllHandlers, s.cur), rpc := if s.cur == Psu then RUnmaskPsu else RUnmaskData)
    case RUnmaskPsu => s.(psuIrq := true, rpc := RWait)
    case RUnmaskData => s.(dataIrq := true, rpc := RUnmaskReset)
    case RUnmaskReset => s.(resetIrq := true, rpc := RWait)
  }

  // ----- the processor thread

  function Loaded(s: State, i: Source): State {
    var h := HeaderOf(s, i);
    var t := s.(src := Set(s.src, ProcRoutine, i), ppc := PRun(h));
    if i == Psu then t.(psu := s.psu.(served := s.psu.served + [h]))
    else t.(fifo := s.fifo.(served := s.fifo.served + [h]))
  }

  function Ran(s: State, c: Command): State {
    if IsSet(s.src, ProcRoutine, Psu) then s.(psu := s.psu.(ran := s.psu.ran + [c]))
    else s.(fifo := s.fifo.(ran := s.fifo.ran + [c]))
  }

  function ProcNext(s: State, table: set<Command>): State
    requires ProcReady(s)
  {
    match s.ppc
    case PWait => s.(procSem := s.procSem - 1, ppc := PCheck)
    case PCheck =>
      if IsSet(s.src, RxRoutine, Psu) then s.(ppc := PLoad(Psu))
      else if IsSet(s.src, RxRoutine, Fifo) then s.(ppc := PLoad(Fifo))
      else s.(fault := UnexpectedInterrupt)
    case PLoad(i) => Loaded(s, i)
    case PRun(h) =>
      if h.status != Clean then s.(ppc := PRespond)
      else if h.command !in table then s.(fault := NoCommandFunction)
      else Ran(s, h.command).(ppc := PRespond)
    case PRespond =>
      if IsSet(s.src, ProcRoutine, Psu) then Responded(s, Psu).(ppc := PClear(Psu))
      else if IsSet(s.src, ProcRoutine, Fifo) then Responded(s, Fifo).(ppc := PClear(Fifo))
      else s.(ppc := PWait)
    case PClear(i) =>
      s.(src := Clear(s.src, AllHandlers, i), ppc := if i == Psu then PUnmaskPsu else PUnmaskData)
    case PUnmaskPsu => s.(psuIrq := true, ppc := PWait)
    case PUnmaskData => s.(dataIrq := true, ppc := PUnmaskReset)
    case PUnmaskReset => s.(resetIrq := true, ppc := PWait)
  }

  // ----- the transition system

  predicate RecvReady(s: State) {
    s.rpc != RWait || s.recvSem > 0
  }

  /** Priority scheduling: the receiver is blocked whenever the processor moves. */
  predicate ProcReady(s: State) {
    !RecvReady(s) && (s.ppc != PWait || s.procSem > 0)
  }

  predicate Enabled(s: State, a: Action) {
    && s.fault == NoFault
    && match a
       case IrqPsu => s.psuIrq
       case IrqData => s.dataIrq
       case IrqReset => s.resetIrq
       case Recv(f) => RecvReady(s) && (s.rpc == RReadPsu ==> f.Arrived? || f.Failed?)
       case Proc => ProcReady(s)
  }

  function Next(s: State, table: set<Command>, a: Action): State
    requires Enabled(s, a)
  {
    match a
    case Recv(f) => RecvNext(s, table, f)
    case Proc => ProcNext(s, table)
    case _ => Interrupt(s, a)
  }

  /** A thread has re-enabled the FIFO data interrupt and not yet the FIFO reset one. */
  predicate MidUnmask(s: State) {
    s.rpc == RUnmaskReset || s.ppc == PUnmaskReset
  }

  /** The environment's half of the contract: no FIFO data interrupt is taken
      between the two enables of the pair. */
  predicate Timely(s: State, a: Action) {
    a == IrqData ==> !MidUnmask(s)
  }

  /** `states` is a run of the protocol taking `actions`. */
  ghost predicate Run(states: seq<State>, actions: seq<Action>, table: set<Command>) {
    && |states| == |actions| + 1
    && forall i :: 0 <= i < |actions| ==>
         Enabled(states[i], actions[i]) && states[i + 1] == Next(states[i], table, actions[i])
  }

  ghost predicate TimelyRun(states: seq<State>, actions: seq<Action>) {
    forall i :: 0 <= i < |actions| < |states| ==> Timely(states[i], actions[i])
  }
}
