/** What the dispatch protocol guarantees over whole runs, and when it comes to rest. */
module DispatchTheorems {
  import opened InterruptSources
  import opened Dispatch
  import opened DispatchInvariant

  // ----- safety

  /** Along every timely run each interface has exactly one owner. */
  lemma {:induction false} RunKeeps(states: seq<State>, actions: seq<Action>, table: set<Command>, k: nat)
    requires Run(states, actions, table) && TimelyRun(states, actions)
    requires Inv(states[0], table) && k < |states|
    ensures Inv(states[k], table)
    decreases k
  {
    if k > 0 {
      RunKeeps(states, actions, table, k - 1);
      StepKeeps(states[k - 1], table, actions[k - 1]);
    }
  }

  /** And only along timely runs. */
  lemma RunKeepsExactly(states: seq<State>, actions: seq<Action>, table: set<Command>)
    requires Run(states, actions, table) && Inv(states[0], table)
    ensures (forall k :: 0 <= k < |states| ==> Inv(states[k], table)) <==> TimelyRun(states, actions)
  {
    if TimelyRun(states, actions) {
      forall k | 0 <= k < |states|
        ensures Inv(states[k], table)
      {
        RunKeeps(states, actions, table, k);
      }
    }
    if forall k :: 0 <= k < |states| ==> Inv(states[k], table) {
      forall i | 0 <= i < |actions|
        ensures Timely(states[i], actions[i])
      {
        assert Inv(states[i], table) && Inv(states[i + 1], table);
        StepKeeps(states[i], table, actions[i]);
      }
    }
  }

  /** No assertion of the firmware fires, the semaphores stay within two tokens of
      their bound of three, and the processor works for at most one interface. */
  lemma RunSafe(states: seq<State>, actions: seq<Action>, table: set<Command>, k: nat)
    requires Run(states, actions, table) && TimelyRun(states, actions)
    requires Init(states[0]) && k < |states|
    ensures states[k].fault in {NoFault, Halted}
    ensures Owners(states[k], Psu) == 1 && Owners(states[k], Fifo) == 1
    ensures states[k].recvSem <= 2 && states[k].procSem <= 2
    ensures !(states[k].src.proc.psu && states[k].src.proc.fifo)
    ensures states[k].rpc == RCheck ==> states[k].src.intr != EMPTY
    ensures states[k].ppc == PCheck ==> states[k].src.rx.psu || states[k].src.rx.fifo
  {
    InitInv(states[0], table);
    RunKeeps(states, actions, table, k);
  }

  /** The receiver never rewrites a header the processor still needs. */
  lemma HeaderStable(s: State, table: set<Command>, a: Action, i: Source)
    requires Inv(s, table) && Enabled(s, a) && i != Reset
    requires Queued(s, i) || AtProcessor(s, i)
    ensures HeaderOf(Next(s, table, a), i) == HeaderOf(s, i)
  {
    assert !AtReceiver(s, i);
    match a
    case Recv(f) =>
    case Proc =>
    case _ =>
  }

  /** Conservation: along every timely run the processor loads exactly the requests
      the receiver posted, in order and unchanged, at most the last one still queued;
      every interrupt but at most one per interface has been answered. */
  lemma NothingLost(states: seq<State>, actions: seq<Action>, table: set<Command>, k: nat)
    requires Run(states, actions, table) && TimelyRun(states, actions)
    requires Init(states[0]) && k < |states|
    ensures forall h :: h in {states[k].psu, states[k].fifo} ==>
              && h.served <= h.posted && |h.posted| <= |h.served| + 1
              && h.responses + h.resets <= h.irqs <= h.responses + h.resets + 1
  {
    InitInv(states[0], table);
    RunKeeps(states, actions, table, k);
  }

  // ----- progress

  predicate ThreadAction(a: Action) { a.Recv? || a.Proc? }

  /** No thread can move. */
  ghost predicate AtRest(s: State) {
    forall a :: ThreadAction(a) ==> !Enabled(s, a)
  }

  function RecvRank(p: RecvPc): nat {
    match p
    case RWait => 0
    case RUnmaskReset | RUnmaskPsu => 1
    case RUnmaskData => 2
    case RClear | RResetReset => 3
    case RReject | RResetFifo => 4
    case RDispatch => 15
    case RMark => 16
    case RReadPsu | RReadFifo => 17
    case RTakePsu | RTakeFifo => 18
    case RCheck => 19
  }

  function ProcRank(p: ProcPc): nat {
    match p
    case PWait => 0
    case PUnmaskReset | PUnmaskPsu => 1
    case PUnmaskData => 2
    case PClear(_) => 3
    case PRespond => 4
    case PRun(_) => 5
    case PLoad(_) => 6
    case PCheck => 7
  }

  /** A bound on the thread steps left when no further interrupt arrives. */
  function Rank(s: State): nat {
    if s.fault != NoFault then 0
    else 1 + 20 * s.recvSem + RecvRank(s.rpc) + 10 * s.procSem + ProcRank(s.ppc)
  }

  lemma RecvDescends(s: State, table: set<Command>, f: Fetch)
    requires Enabled(s, Recv(f))
    ensures Rank(Next(s, table, Recv(f))) < Rank(s)
  {
    if s.rpc.RDispatch? {
      DispatchDescends(s, table, f);
    } else if RecvRank(s.rpc) > 4 || s.rpc.RWait? {
      FetchDescends(s, table, f);
    } else if RecvRank(s.rpc) > 2 {
      ResetDescends(s, table, f);
    } else {
      UnmaskDescends(s, table, f);
    }
  }

  lemma ResetDescends(s: State, table: set<Command>, f: Fetch)
    requires Enabled(s, Recv(f)) && (s.rpc.RResetFifo? || s.rpc.RResetReset? || s.rpc.RReject? || s.rpc.RClear?)
    ensures Rank(Next(s, table, Recv(f))) < Rank(s)
  {
  }

  lemma UnmaskDescends(s: State, table: set<Command>, f: Fetch)
    requires Enabled(s, Recv(f)) && (s.rpc.RUnmaskPsu? || s.rpc.RUnmaskData? || s.rpc.RUnmaskReset?)
    ensures Rank(Next(s, table, Recv(f))) < Rank(s)
  {
  }

  lemma FetchDescends(s: State, table: set<Command>, f: Fetch)
    requires Enabled(s, Recv(f)) && (RecvRank(s.rpc) > 15 || s.rpc.RWait?)
    ensures Rank(Next(s, table, Recv(f))) < Rank(s)
  {
  }

  lemma DispatchDescends(s: State, table: set<Command>, f: Fetch)
    requires Enabled(s, Recv(f)) && s.rpc.RDispatch?
    ensures Rank(Next(s, table, Recv(f))) < Rank(s)
  {
  }

  lemma ProcDescends(s: State, table: set<Command>)
    requires Enabled(s, Proc)
    ensures Rank(Next(s, table, Proc)) < Rank(s)
  {
    if s.ppc.PWait? || s.ppc.PCheck? || s.ppc.PLoad? {
      LoadDescends(s, table);
    } else if s.ppc.PRun? || s.ppc.PRespond? {
      RunDescends(s, table);
    }
  }

  lemma LoadDescends(s: State, table: set<Command>)
    requires Enabled(s, Proc) && (s.ppc.PWait? || s.ppc.PCheck? || s.ppc.PLoad?)
    ensures Rank(Next(s, table, Proc)) < Rank(s)
  {
  }

  lemma RunDescends(s: State, table: set<Command>)
    requires Enabled(s, Proc) && (s.ppc.PRun? || s.ppc.PRespond?)
    ensures Rank(Next(s, table, Proc)) < Rank(s)
  {
  }

  /** At rest: masks zero, every interrupt enabled, nothing queued, nothing unanswered. */
  predicate Idle(s: State) {
    && s.src == Sources(EMPTY, EMPTY, EMPTY)
    && s.psuIrq && s.dataIrq && s.resetIrq
    && s.recvSem == 0 && s.procSem == 0 && s.rpc == RWait && s.ppc == PWait
    && s.psu.posted == s.psu.served && s.fifo.posted == s.fifo.served
    && s.psu.irqs == s.psu.responses + s.psu.resets
    && s.fifo.irqs == s.fifo.responses + s.fifo.resets
  }

  /** Only an idle protocol (or a halted one) has no thread step to take. */
  lemma StuckOnlyWhenIdle(s: State, table: set<Command>)
    requires Inv(s, table) && s.fault == NoFault
    requires AtRest(s)
    ensures Idle(s)
  {
    assert !Enabled(s, Recv(Failed)) && !Enabled(s, Proc);
    assert !Pending(s, Psu) && !Pending(s, Fifo) && !Queued(s, Psu) && !Queued(s, Fifo);
  }

  /** From every reachable state, with no further interrupt, every run stops after
      at most `Rank` thread steps, and where it stops the protocol is idle or halted. */
  lemma {:induction false} Drains(states: seq<State>, actions: seq<Action>, table: set<Command>)
    requires Run(states, actions, table) && Inv(states[0], table)
    requires forall i :: 0 <= i < |actions| ==> ThreadAction(actions[i])
    ensures |actions| + Rank(states[|actions|]) <= Rank(states[0])
    ensures states[|actions|].fault == NoFault && AtRest(states[|actions|]) ==> Idle(states[|actions|])
    decreases |actions|
  {
    var n := |actions|;
    RunKeeps(states, actions, table, n);
    if n > 0 {
      var last := actions[n - 1];
      Drains(states[..n], actions[..n - 1], table);
      match last
      case Recv(f) => RecvDescends(states[n - 1], table, f);
      case Proc => ProcDescends(states[n - 1], table);
    }
    if states[n].fault == NoFault && AtRest(states[n]) {
      StuckOnlyWhenIdle(states[n], table);
    }
  }
}
