/** The schedules the protocol does not survive: a FIFO data interrupt between the two
    enables. */
module DispatchGap {
  import opened InterruptSources
  import opened Dispatch
  import opened DispatchInvariant
  import opened DispatchTheorems

  // ----- building runs

  lemma Extend(states: seq<State>, actions: seq<Action>, table: set<Command>, a: Action)
      returns (states': seq<State>, actions': seq<Action>)
    requires Run(states, actions, table) && Enabled(states[|actions|], a)
    ensures Run(states', actions', table) && states'[0] == states[0] && actions' == actions + [a]
    ensures states'[|actions'|] == Next(states[|actions|], table, a)
  {
    states', actions' := states + [Next(states[|actions|], table, a)], actions + [a];
  }

  /** The receiver takes a FIFO reset request, up to the reset itself. */
  lemma TakeReset(states: seq<State>, actions: seq<Action>, table: set<Command>)
      returns (states': seq<State>, actions': seq<Action>)
    requires Run(states, actions, table)
    requires var s := states[|actions|];
      s.fault == NoFault && s.rpc == RWait && s.recvSem == 1 && s.src.intr == Mask(false, false, true)
    ensures Run(states', actions', table) && states'[0] == states[0] && actions <= actions'
    ensures var s, t := states[|actions|], states'[|actions'|];
      t == s.(recvSem := 0, cur := Reset, rc := ResetReceived, rpc := RResetFifo,
              src := s.src.(rx := s.src.rx.(reset := true)))
  {
    states', actions' := Extend(states, actions, table, Recv(Failed));
    states', actions' := Extend(states', actions', table, Recv(Failed));
    states', actions' := Extend(states', actions', table, Recv(Failed));
    states', actions' := Extend(states', actions', table, Recv(Failed));
  }

  /** The reset drops the bits of a FIFO request, queued or not, up to the gap. */
  lemma ResetBits(states: seq<State>, actions: seq<Action>, table: set<Command>)
      returns (states': seq<State>, actions': seq<Action>)
    requires Run(states, actions, table)
    requires var s := states[|actions|];
      && s.fault == NoFault && s.rpc == RResetFifo && s.src.intr == Mask(false, false, true)
      && s.src.rx.reset && !s.src.proc.fifo && !s.src.proc.reset
    ensures Run(states', actions', table) && states'[0] == states[0] && actions <= actions'
    ensures var s, t := states[|actions|], states'[|actions'|];
      t == s.(src := Sources(EMPTY, s.src.rx.(fifo := false, reset := false), s.src.proc), rpc := RUnmaskReset,
              dataIrq := true, fifo := s.fifo.(resets := s.fifo.resets + 1))
  {
    states', actions' := Extend(states, actions, table, Recv(Failed));
    states', actions' := Extend(states', actions', table, Recv(Failed));
    states', actions' := Extend(states', actions', table, Recv(Failed));
  }

  // ----- the receiver takes what is pending

  /** What the actual state has beside an orderly one: the processor still at its second
      enable, or the reset interrupt enabled when it should not be. */
  datatype Slip = ProcessorBehind | ResetEnabled

  function Slipped(s: State, slip: Slip): State {
    match slip
    case ProcessorBehind => s.(ppc := PUnmaskReset)
    case ResetEnabled => s.(resetIrq := true)
  }

  /** The receiver does not see the slip. */
  lemma ReceiverUnaware(s: State, slip: Slip, table: set<Command>, f: Fetch)
    requires Enabled(s, Recv(f))
    ensures Unaware(s, slip, table, f)
  {
    if s.rpc.RReadPsu? || s.rpc.RReadFifo? {
      ReadUnaware(s, slip, table, f);
    } else if s.rpc.RDispatch? {
      DispatchUnaware(s, slip, table, f);
    } else if s.rpc.RResetFifo? || s.rpc.RResetReset? {
      ResetUnaware(s, slip, table, f);
    } else if s.rpc.RReject? {
      RejectUnaware(s, slip, table, f);
    } else if s.rpc.RClear? {
      ClearUnaware(s, slip, table, f);
    } else if s.rpc.RCheck? {
      CheckUnaware(s, slip, table, f);
    } else if s.rpc.RTakePsu? || s.rpc.RTakeFifo? || s.rpc.RMark? {
      TakeUnaware(s, slip, table, f);
    } else {
      PlainUnaware(s, slip, table, f);
    }
  }

  predicate Unaware(s: State, slip: Slip, table: set<Command>, f: Fetch)
    requires Enabled(s, Recv(f))
  {
    && Enabled(Slipped(s, slip), Recv(f)) && Next(s, table, Recv(f)).ppc == s.ppc
    && Next(Slipped(s, slip), table, Recv(f)) == Slipped(Next(s, table, Recv(f)), slip)
  }

  lemma ReadUnaware(s: State, slip: Slip, table: set<Command>, f: Fetch)
    requires Enabled(s, Recv(f)) && (s.rpc.RReadPsu? || s.rpc.RReadFifo?)
    ensures Unaware(s, slip, table, f)
  {
    match f { case _ => }
  }

  lemma DispatchUnaware(s: State, slip: Slip, table: set<Command>, f: Fetch)
    requires Enabled(s, Recv(f)) && s.rpc.RDispatch?
    ensures Unaware(s, slip, table, f)
  {
    if s.rc.Success? {
      PostUnaware(s, slip, table, f);
    }
  }

  lemma PostUnaware(s: State, slip: Slip, table: set<Command>, f: Fetch)
    requires Enabled(s, Recv(f)) && s.rpc.RDispatch? && s.rc.Success?
    ensures Unaware(s, slip, table, f)
  {
  }

  lemma ResetUnaware(s: State, slip: Slip, table: set<Command>, f: Fetch)
    requires Enabled(s, Recv(f)) && (s.rpc.RResetFifo? || s.rpc.RResetReset?)
    ensures Unaware(s, slip, table, f)
  {
    match slip { case _ => }
  }

  lemma RejectUnaware(s: State, slip: Slip, table: set<Command>, f: Fetch)
    requires Enabled(s, Recv(f)) && s.rpc.RReject?
    ensures Unaware(s, slip, table, f)
  {
    if slip == ProcessorBehind {
      RejectUnawareOfProcessor(s, table, f);
    } else {
      RejectUnawareOfEnable(s, table, f);
    }
  }

  lemma RejectUnawareOfProcessor(s: State, table: set<Command>, f: Fetch)
    requires Enabled(s, Recv(f)) && s.rpc.RReject?
    ensures Unaware(s, ProcessorBehind, table, f)
  {
  }

  lemma RejectUnawareOfEnable(s: State, table: set<Command>, f: Fetch)
    requires Enabled(s, Recv(f)) && s.rpc.RReject?
    ensures Unaware(s, ResetEnabled, table, f)
  {
  }

  lemma ClearUnaware(s: State, slip: Slip, table: set<Command>, f: Fetch)
    requires Enabled(s, Recv(f)) && s.rpc.RClear?
    ensures Unaware(s, slip, table, f)
  {
  }

  lemma CheckUnaware(s: State, slip: Slip, table: set<Command>, f: Fetch)
    requires Enabled(s, Recv(f)) && s.rpc.RCheck?
    ensures Unaware(s, slip, table, f)
  {
  }

  lemma TakeUnaware(s: State, slip: Slip, table: set<Command>, f: Fetch)
    requires Enabled(s, Recv(f)) && (s.rpc.RTakePsu? || s.rpc.RTakeFifo? || s.rpc.RMark?)
    ensures Unaware(s, slip, table, f)
  {
  }

  lemma PlainUnaware(s: State, slip: Slip, table: set<Command>, f: Fetch)
    requires Enabled(s, Recv(f)) && (s.rpc.RWait? || s.rpc.RUnmaskPsu? || s.rpc.RUnmaskData? || s.rpc.RUnmaskReset?)
    ensures Unaware(s, slip, table, f)
  {
  }

  /** The receiver has not seen a failed access. */
  predicate NotHalting(s: State) {
    s.fault == NoFault && !((s.rpc.RMark? || s.rpc.RDispatch?) && s.rc == AccessFailure)
  }

  /** A FIFO request is on its way to the processor. */
  predicate Coming(s: State) {
    && !s.src.intr.reset
    && (|| Pending(s, Fifo) || Queued(s, Fifo) || s.rpc.RReadFifo?
        || ((s.rpc.RMark? || s.rpc.RDispatch?) && s.cur == Fifo && s.rc == Success))
  }

  lemma StaysComing(s: State, table: set<Command>, c: Command)
    requires Inv(s, table) && NotHalting(s) && Coming(s) && c in table && Enabled(s, Recv(Arrived(c, true)))
    ensures NotHalting(Next(s, table, Recv(Arrived(c, true)))) && Coming(Next(s, table, Recv(Arrived(c, true))))
  {
    RecvKeeps(s, table, Arrived(c, true));
  }

  /** The receiver works off everything pending; the FIFO request ends up queued. */
  lemma {:induction false} AcceptAll(states: seq<State>, actions: seq<Action>, table: set<Command>, c: Command, s: State, slip: Slip)
      returns (states': seq<State>, actions': seq<Action>, s': State)
    requires Run(states, actions, table) && states[|actions|] == Slipped(s, slip)
    requires Inv(s, table) && NotHalting(s) && Coming(s) && c in table
    ensures Run(states', actions', table) && states'[0] == states[0] && actions <= actions'
    ensures states'[|actions'|] == Slipped(s', slip) && Inv(s', table) && s'.ppc == s.ppc
    ensures s'.fault == NoFault && s'.rpc == RWait && s'.recvSem == 0 && Queued(s', Fifo)
    decreases Rank(s)
  {
    if RecvReady(s) {
      var go := Arrived(c, true);
      ReceiverUnaware(s, slip, table, go);
      StaysComing(s, table, c);
      RecvKeeps(s, table, go);
      RecvDescends(s, table, go);
      states', actions' := Extend(states, actions, table, Recv(go));
      states', actions', s' := AcceptAll(states', actions', table, c, Next(s, table, Recv(go)), slip);
    } else {
      states', actions', s' := states, actions, s;
      Settled(s, table);
    }
  }

  lemma Settled(s: State, table: set<Command>)
    requires Inv(s, table) && Coming(s) && !RecvReady(s)
    ensures Queued(s, Fifo) && s.src.intr == EMPTY
  {
    assert !Pending(s, Psu) && !Pending(s, Fifo);
  }

  // ----- the reset takes the queued request away

  /** The processor's semaphore has one token more than there are requests, and the
      processor works for no FIFO request. */
  predicate Surplus(s: State, table: set<Command>) {
    && s.fault == NoFault && s.rpc == RWait && s.recvSem == 0
    && !s.src.rx.fifo && !s.src.proc.fifo && s.ppc != PLoad(Fifo) && s.ppc != PLoad(Reset)
    && !s.ppc.PUnmaskData? && !s.ppc.PUnmaskReset?
    && (s.src.proc.psu <==> s.ppc.PRun? || s.ppc.PRespond? || s.ppc.PClear?)
    && (s.ppc.PClear? ==> s.ppc.clearing == Psu)
    && (s.ppc.PLoad? ==> s.src.rx.psu) && (s.src.proc.psu ==> s.src.rx.psu) && (s.ppc.PUnmaskPsu? ==> !s.src.rx.psu)
    && (s.ppc.PRun? ==> Runnable(s.ppc.local, table))
    && (s.src.rx.psu && !s.src.proc.psu ==> Runnable(s.psuHdr, table))
    && s.procSem + Count(s.ppc.PCheck? || s.ppc.PLoad?) == Count(s.src.rx.psu && !s.src.proc.psu) + 1
  }

  /** Where the actual run stands before the reset interrupt. */
  predicate Exposed(s: State, table: set<Command>) {
    && Inv(s, table) && s.fault == NoFault && s.rpc == RWait && s.recvSem == 0 && Queued(s, Fifo)
    && s.ppc != PLoad(Fifo)
  }

  lemma SurplusAfterReset(s: State, t: State, table: set<Command>)
    requires Exposed(s, table)
    requires t.fault == NoFault && t.rpc == RWait && t.recvSem == 0
    requires t.src == Sources(EMPTY, s.src.rx.(fifo := false, reset := false), s.src.proc)
    requires t.ppc == s.ppc && t.procSem == s.procSem && t.psuHdr == s.psuHdr
    ensures Surplus(t, table)
  {
  }

  lemma ResetQueued(states: seq<State>, actions: seq<Action>, table: set<Command>, s: State)
      returns (states': seq<State>, actions': seq<Action>)
    requires Run(states, actions, table) && Exposed(s, table) && states[|actions|] == s.(resetIrq := true)
    ensures Run(states', actions', table) && states'[0] == states[0] && actions <= actions'
    ensures Surplus(states'[|actions'|], table)
  {
    Settled(s, table);
    states', actions' := Extend(states, actions, table, IrqReset);
    states', actions' := TakeReset(states', actions', table);
    states', actions' := ResetBits(states', actions', table);
    states', actions' := Extend(states', actions', table, Recv(Failed));
    SurplusAfterReset(s, states'[|actions'|], table);
  }

  // ----- the processor wakes once too often

  lemma SurplusStep(s: State, table: set<Command>)
    requires Surplus(s, table)
    ensures Enabled(s, Proc)
    ensures Next(s, table, Proc).fault == UnexpectedInterrupt || Surplus(Next(s, table, Proc), table)
  {
  }

  lemma {:induction false} ProcessorAsserts(states: seq<State>, actions: seq<Action>, table: set<Command>)
      returns (states': seq<State>, actions': seq<Action>)
    requires Run(states, actions, table) && Surplus(states[|actions|], table)
    ensures Run(states', actions', table) && states'[0] == states[0] && actions <= actions'
    ensures states'[|actions'|].fault == UnexpectedInterrupt
    decreases Rank(states[|actions|])
  {
    var s := states[|actions|];
    SurplusStep(s, table);
    ProcDescends(s, table);
    states', actions' := Extend(states, actions, table, Proc);
    if states'[|actions'|].fault != UnexpectedInterrupt {
      states', actions' := ProcessorAsserts(states', actions', table);
    }
  }

  // ----- from every gap

  /** The state in which the second enable has been done. */
  function Closed(s: State): State {
    if s.rpc == RUnmaskReset then s.(resetIrq := true, rpc := RWait) else s.(resetIrq := true, ppc := PWait)
  }

  lemma ClosedInv(s: State, table: set<Command>)
    requires Inv(s, table) && MidUnmask(s) && NotHalting(s)
    ensures Inv(Closed(s), table) && NotHalting(Closed(s)) && Enabled(Closed(s), IrqData) && Unmasked(Closed(s), Fifo)
    ensures !(s.rpc == RUnmaskReset && s.ppc == PUnmaskReset)
  {
  }

  /** Taken in the gap, the data interrupt leads where it would lead after it, but for the
      slip; the receiver's own second enable counts as done. */
  lemma GapInterrupt(s: State, table: set<Command>)
    requires Inv(s, table) && MidUnmask(s) && NotHalting(s)
    ensures Enabled(s, IrqData)
    ensures var t, u := Next(s, table, IrqData), Next(Closed(s), table, IrqData);
      && (s.rpc == RUnmaskReset ==> Enabled(t, Recv(Failed)) && Next(t, table, Recv(Failed)) == Slipped(u, ResetEnabled))
      && (s.rpc != RUnmaskReset ==> t == Slipped(u, ProcessorBehind))
      && Inv(u, table) && NotHalting(u) && Coming(u) && u.ppc != PLoad(Fifo)
      && (s.rpc != RUnmaskReset ==> u.ppc == PWait)
  {
    ClosedInv(s, table);
    IrqDataKeeps(Closed(s), table);
  }

  /** From every state in the gap whose receiver is not about to halt, the data interrupt
      has a continuation on which the processor asserts. */
  lemma GapAsserts(states: seq<State>, actions: seq<Action>, table: set<Command>, c: Command)
      returns (states': seq<State>, actions': seq<Action>)
    requires Run(states, actions, table) && c in table
    requires var s := states[|actions|]; Inv(s, table) && MidUnmask(s) && NotHalting(s)
    ensures Run(states', actions', table) && states'[0] == states[0] && actions + [IrqData] <= actions'
    ensures states'[|actions'|].fault == UnexpectedInterrupt
  {
    var s := states[|actions|];
    GapInterrupt(s, table);
    var u := Next(Closed(s), table, IrqData);
    states', actions' := Extend(states, actions, table, IrqData);
    if s.rpc == RUnmaskReset {
      states', actions' := Extend(states', actions', table, Recv(Failed));
      states', actions', u := AcceptAll(states', actions', table, c, u, ResetEnabled);
    } else {
      states', actions', u := AcceptAll(states', actions', table, c, u, ProcessorBehind);
      states', actions' := Extend(states', actions', table, Proc);
    }
    states', actions' := ResetQueued(states', actions', table, u);
    states', actions' := ProcessorAsserts(states', actions', table);
  }

  /** The gap is reachable: a reset request leads into it. So from every start the firmware
      has a run that asserts. */
  lemma UntimelyRunAsserts(s: State, table: set<Command>, c: Command)
      returns (states: seq<State>, actions: seq<Action>)
    requires Init(s) && c in table
    ensures Run(states, actions, table) && states[0] == s
    ensures states[|actions|].fault == UnexpectedInterrupt
  {
    states, actions := [s], [];
    states, actions := Extend(states, actions, table, IrqReset);
    states, actions := TakeReset(states, actions, table);
    states, actions := ResetBits(states, actions, table);
    GapInv(s, states[|actions|], table);
    states, actions := GapAsserts(states, actions, table, c);
  }

  lemma GapInv(s: State, t: State, table: set<Command>)
    requires Init(s)
    requires t == s.(cur := Reset, rc := ResetReceived, rpc := RUnmaskReset, resetIrq := false,
                     fifo := s.fifo.(irqs := 1, resets := 1))
    ensures Inv(t, table) && MidUnmask(t) && NotHalting(t)
  {
  }
}
