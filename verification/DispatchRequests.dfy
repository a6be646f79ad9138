/** What becomes of every request the receiver reads: which are handed to the processor and
    with what status, which chip-ops run, and which are answered by the receiver itself. */
module DispatchRequests {
  import opened InterruptSources
  import opened Dispatch
  import opened DispatchInvariant
  import opened DispatchTheorems

  function HistoryOf(s: State, i: Source): History { if i == Psu then s.psu else s.fifo }

  /** A step in which the receiver reads a request of the interface. */
  predicate Reads(s: State, a: Action, i: Source) {
    a.Recv? && ((i == Psu && s.rpc == RReadPsu) || (i == Fifo && s.rpc == RReadFifo))
  }

  /** What the processor has to see of a fetch: an allowed command as clean, a command outside
      the table and a read out of sequence as bad, a fenced command not at all. */
  function Request(f: Fetch, table: set<Command>): seq<Header> {
    match f
    case Arrived(c, allowed) =>
      if c !in table then [Header(c, BadCommand)] else if allowed then [Header(c, Clean)] else []
    case OutOfSequence(partial) => [Header(partial, BadData)]
    case _ => []
  }

  function RequestOf(s: State, a: Action, table: set<Command>, i: Source): seq<Header> {
    if Reads(s, a, i) then Request(a.fetch, table) else []
  }

  /** The requests read on an interface in the first `k` steps that the processor has to see. */
  ghost function Requests(states: seq<State>, actions: seq<Action>, table: set<Command>, i: Source, k: nat): seq<Header>
    requires k <= |actions| < |states|
  {
    if k == 0 then []
    else Requests(states, actions, table, i, k - 1) + RequestOf(states[k - 1], actions[k - 1], table, i)
  }

  // ----- what is handed to the processor

  /** The request that was read and is about to be posted. */
  function Underway(s: State, i: Source): seq<Header> {
    if (s.rpc == RMark || s.rpc == RDispatch) && s.fault == NoFault && s.cur == i && s.rc == Success then [HeaderOf(s, i)]
    else []
  }

  /** The requests posted, and the one about to be. */
  function Handed(s: State, i: Source): seq<Header> { HistoryOf(s, i).posted + Underway(s, i) }

  predicate Reading(s: State) {
    && (s.rpc == RReadPsu ==> s.cur == Psu)
    && (s.rpc == RReadFifo ==> s.cur == Fifo)
    && ((s.rpc == RMark || s.rpc == RDispatch) && s.cur == Reset ==> s.rc == ResetReceived)
  }

  lemma ReadHands(s: State, table: set<Command>, f: Fetch, i: Source)
    requires Enabled(s, Recv(f)) && Reading(s) && i != Reset && (s.rpc.RReadPsu? || s.rpc.RReadFifo?)
    ensures Reading(Next(s, table, Recv(f)))
    ensures Handed(Next(s, table, Recv(f)), i) == Handed(s, i) + RequestOf(s, Recv(f), table, i)
  {
  }

  lemma DispatchHands(s: State, table: set<Command>, f: Fetch, i: Source)
    requires Enabled(s, Recv(f)) && Reading(s) && i != Reset && s.rpc.RDispatch? && s.procSem < MAX_SEMAPHORE_COUNT
    ensures Reading(Next(s, table, Recv(f))) && Handed(Next(s, table, Recv(f)), i) == Handed(s, i)
  {
  }

  lemma CheckHands(s: State, table: set<Command>, f: Fetch, i: Source)
    requires Enabled(s, Recv(f)) && Reading(s) && i != Reset
    requires s.rpc.RWait? || s.rpc.RCheck? || s.rpc.RTakePsu? || s.rpc.RTakeFifo? || s.rpc.RMark?
    ensures Reading(Next(s, table, Recv(f))) && Handed(Next(s, table, Recv(f)), i) == Handed(s, i)
  {
  }

  lemma EndHands(s: State, table: set<Command>, f: Fetch, i: Source)
    requires Enabled(s, Recv(f)) && Reading(s) && i != Reset
    requires s.rpc.RResetFifo? || s.rpc.RResetReset? || s.rpc.RReject? || s.rpc.RClear?
    ensures Reading(Next(s, table, Recv(f))) && Handed(Next(s, table, Recv(f)), i) == Handed(s, i)
  {
  }

  lemma UnmaskHands(s: State, table: set<Command>, f: Fetch, i: Source)
    requires Enabled(s, Recv(f)) && Reading(s) && i != Reset
    requires s.rpc.RUnmaskPsu? || s.rpc.RUnmaskData? || s.rpc.RUnmaskReset?
    ensures Reading(Next(s, table, Recv(f))) && Handed(Next(s, table, Recv(f)), i) == Handed(s, i)
  {
  }

  lemma RecvHands(s: State, table: set<Command>, f: Fetch, i: Source)
    requires Enabled(s, Recv(f)) && Reading(s) && i != Reset && s.procSem < MAX_SEMAPHORE_COUNT
    ensures Reading(Next(s, table, Recv(f)))
    ensures Handed(Next(s, table, Recv(f)), i) == Handed(s, i) + RequestOf(s, Recv(f), table, i)
  {
    match s.rpc
    case RReadPsu | RReadFifo => ReadHands(s, table, f, i);
    case RDispatch => DispatchHands(s, table, f, i);
    case RWait | RCheck | RTakePsu | RTakeFifo | RMark => CheckHands(s, table, f, i);
    case RResetFifo | RResetReset | RReject | RClear => EndHands(s, table, f, i);
    case RUnmaskPsu | RUnmaskData | RUnmaskReset => UnmaskHands(s, table, f, i);
  }

  lemma ProcHands(s: State, table: set<Command>, i: Source)
    requires Enabled(s, Proc) && Reading(s) && i != Reset
    ensures Reading(Next(s, table, Proc)) && Handed(Next(s, table, Proc), i) == Handed(s, i)
  {
    if s.ppc.PRun? || s.ppc.PRespond? {
      ProcRunHands(s, table, i);
    } else {
      ProcRestHands(s, table, i);
    }
  }

  lemma ProcRunHands(s: State, table: set<Command>, i: Source)
    requires Enabled(s, Proc) && Reading(s) && i != Reset && (s.ppc.PRun? || s.ppc.PRespond?)
    ensures Reading(Next(s, table, Proc)) && Handed(Next(s, table, Proc), i) == Handed(s, i)
  {
  }

  lemma ProcRestHands(s: State, table: set<Command>, i: Source)
    requires Enabled(s, Proc) && Reading(s) && i != Reset && !s.ppc.PRun? && !s.ppc.PRespond?
    ensures Reading(Next(s, table, Proc)) && Handed(Next(s, table, Proc), i) == Handed(s, i)
  {
  }

  lemma InterruptHands(s: State, table: set<Command>, a: Action, i: Source)
    requires Enabled(s, a) && !a.Recv? && !a.Proc? && Reading(s) && i != Reset && s.recvSem < MAX_SEMAPHORE_COUNT
    ensures Reading(Next(s, table, a)) && Handed(Next(s, table, a), i) == Handed(s, i)
  {
  }

  lemma StepHands(s: State, table: set<Command>, a: Action, i: Source)
    requires Enabled(s, a) && Reading(s) && i != Reset && s.recvSem < MAX_SEMAPHORE_COUNT && s.procSem < MAX_SEMAPHORE_COUNT
    ensures Reading(Next(s, table, a)) && Handed(Next(s, table, a), i) == Handed(s, i) + RequestOf(s, a, table, i)
  {
    match a
    case Recv(f) => RecvHands(s, table, f, i);
    case Proc => ProcHands(s, table, i);
    case _ => InterruptHands(s, table, a, i);
  }

  /** Along every timely run the receiver hands the processor exactly the requests it read that
      the processor has to see, in order, each with its status. */
  lemma {:induction false} PostedAreRequests(states: seq<State>, actions: seq<Action>, table: set<Command>, i: Source, k: nat)
    requires Run(states, actions, table) && TimelyRun(states, actions) && Init(states[0]) && k < |states| && i != Reset
    ensures Reading(states[k]) && Handed(states[k], i) == Requests(states, actions, table, i, k)
    decreases k
  {
    if k > 0 {
      PostedAreRequests(states, actions, table, i, k - 1);
      RunSafe(states, actions, table, k - 1);
      StepHands(states[k - 1], table, actions[k - 1], i);
    }
  }

  /** Every header the receiver posts was read: a clean one as an allowed command of the table,
      the others as what their status says. */
  lemma PostedWasRead(states: seq<State>, actions: seq<Action>, table: set<Command>, i: Source, k: nat, h: Header)
      returns (j: nat)
    requires Run(states, actions, table) && TimelyRun(states, actions) && Init(states[0]) && k < |states| && i != Reset
    requires h in HistoryOf(states[k], i).posted
    ensures j < k && Reads(states[j], actions[j], i)
    ensures match h.status
      case Clean => actions[j].fetch == Arrived(h.command, true) && h.command in table
      case BadCommand => actions[j].fetch.Arrived? && actions[j].fetch.command == h.command && h.command !in table
      case BadData => actions[j].fetch == OutOfSequence(h.command)
      case Fenced => false
  {
    PostedAreRequests(states, actions, table, i, k);
    j := RequestWasRead(states, actions, table, i, k, h);
  }

  lemma {:induction false} RequestWasRead(states: seq<State>, actions: seq<Action>, table: set<Command>, i: Source, k: nat, h: Header)
      returns (j: nat)
    requires k <= |actions| < |states| && h in Requests(states, actions, table, i, k)
    ensures j < k && Reads(states[j], actions[j], i) && h in Request(actions[j].fetch, table)
    decreases k
  {
    if h in RequestOf(states[k - 1], actions[k - 1], table, i) {
      j := k - 1;
    } else {
      j := RequestWasRead(states, actions, table, i, k - 1, h);
    }
  }

  // ----- the chip-ops that run

  /** The commands of the clean headers. */
  function Commands(hs: seq<Header>): seq<Command> {
    if hs == [] then []
    else Commands(hs[..|hs| - 1]) + (var h := hs[|hs| - 1]; if h.status == Clean then [h.command] else [])
  }

  lemma {:induction false} CommandsAppend(hs: seq<Header>, more: seq<Header>)
    ensures Commands(hs + more) == Commands(hs) + Commands(more)
    decreases |more|
  {
    if more == [] {
      assert hs + more == hs;
    } else {
      var n := |more| - 1;
      assert (hs + more)[..|hs + more| - 1] == hs + more[..n];
      CommandsAppend(hs, more[..n]);
    }
  }

  lemma CommandsPrefix(hs: seq<Header>, all: seq<Header>)
    requires hs <= all
    ensures Commands(hs) <= Commands(all)
  {
    assert all == hs + all[|hs|..];
    CommandsAppend(hs, all[|hs|..]);
  }

  /** The chip-op about to run. */
  function Started(s: State, i: Source): seq<Command> {
    if s.ppc.PRun? && s.src.proc.Has(i) && s.ppc.local.status == Clean then [s.ppc.local.command] else []
  }

  /** The chip-ops run, and the one about to. */
  function Work(s: State, i: Source): seq<Command> { HistoryOf(s, i).ran + Started(s, i) }

  predicate Account(s: State, i: Source) {
    Work(s, i) == Commands(HistoryOf(s, i).served)
  }

  /** The step has nothing to do with the chip-ops of an interface. */
  predicate SameWork(s: State, t: State, i: Source) {
    && HistoryOf(t, i).ran == HistoryOf(s, i).ran && HistoryOf(t, i).served == HistoryOf(s, i).served
    && Started(t, i) == Started(s, i)
  }

  lemma RecvRuns(s: State, table: set<Command>, f: Fetch, i: Source)
    requires Inv(s, table) && Enabled(s, Recv(f)) && i != Reset
    ensures SameWork(s, Next(s, table, Recv(f)), i)
  {
    match s.rpc
    case RClear => ClearRuns(s, table, f, i);
    case RResetFifo | RResetReset => ResetRuns(s, table, f, i);
    case RReject | RDispatch => AnswerRuns(s, table, f, i);
    case RReadPsu | RReadFifo => ReadRuns(s, table, f, i);
    case RWait | RCheck | RTakePsu | RTakeFifo | RMark => WaitRuns(s, table, f, i);
    case RUnmaskPsu | RUnmaskData | RUnmaskReset =>
  }

  lemma ClearRuns(s: State, table: set<Command>, f: Fetch, i: Source)
    requires Inv(s, table) && Enabled(s, Recv(f)) && i != Reset && s.rpc.RClear?
    ensures SameWork(s, Next(s, table, Recv(f)), i)
  {
    assert AtReceiver(s, s.cur) && !AtProcessor(s, s.cur);
  }

  lemma ResetRuns(s: State, table: set<Command>, f: Fetch, i: Source)
    requires Inv(s, table) && Enabled(s, Recv(f)) && i != Reset && (s.rpc.RResetFifo? || s.rpc.RResetReset?)
    ensures SameWork(s, Next(s, table, Recv(f)), i)
  {
    assert AtReceiver(s, Fifo) && !AtProcessor(s, Fifo);
  }

  lemma AnswerRuns(s: State, table: set<Command>, f: Fetch, i: Source)
    requires Enabled(s, Recv(f)) && i != Reset && (s.rpc.RReject? || s.rpc.RDispatch?)
    ensures SameWork(s, Next(s, table, Recv(f)), i)
  {
  }

  lemma ReadRuns(s: State, table: set<Command>, f: Fetch, i: Source)
    requires Enabled(s, Recv(f)) && i != Reset && (s.rpc.RReadPsu? || s.rpc.RReadFifo?)
    ensures SameWork(s, Next(s, table, Recv(f)), i)
  {
  }

  lemma WaitRuns(s: State, table: set<Command>, f: Fetch, i: Source)
    requires Enabled(s, Recv(f)) && i != Reset && (s.rpc.RWait? || s.rpc.RCheck? || s.rpc.RTakePsu? || s.rpc.RTakeFifo? || s.rpc.RMark?)
    ensures SameWork(s, Next(s, table, Recv(f)), i)
  {
  }

  lemma LoadRuns(s: State, table: set<Command>, i: Source)
    requires Inv(s, table) && Enabled(s, Proc) && s.ppc.PLoad? && i != Reset && Account(s, i)
    ensures Account(Next(s, table, Proc), i)
  {
    if s.ppc.loading == i {
      ThisLoadRuns(s, table, i);
    } else {
      OtherLoadRuns(s, table, i);
    }
  }

  lemma ThisLoadRuns(s: State, table: set<Command>, i: Source)
    requires Inv(s, table) && Enabled(s, Proc) && s.ppc == PLoad(i) && i != Reset && Account(s, i)
    ensures Account(Next(s, table, Proc), i)
  {
    assert Started(s, i) == [];
    CommandsAppend(HistoryOf(s, i).served, [HeaderOf(s, i)]);
  }

  lemma OtherLoadRuns(s: State, table: set<Command>, i: Source)
    requires Inv(s, table) && Enabled(s, Proc) && s.ppc.PLoad? && s.ppc.loading != i && i != Reset
    ensures SameWork(s, Next(s, table, Proc), i)
  {
  }

  lemma RunRuns(s: State, table: set<Command>, i: Source)
    requires Inv(s, table) && Enabled(s, Proc) && s.ppc.PRun? && i != Reset
    ensures var t := Next(s, table, Proc);
      Work(t, i) == Work(s, i) && HistoryOf(t, i).served == HistoryOf(s, i).served
  {
  }

  lemma RestRuns(s: State, table: set<Command>, i: Source)
    requires Enabled(s, Proc) && !s.ppc.PLoad? && !s.ppc.PRun? && i != Reset
    ensures SameWork(s, Next(s, table, Proc), i)
  {
    if s.ppc.PRespond? {
      RespondRuns(s, table, i);
    }
  }

  lemma RespondRuns(s: State, table: set<Command>, i: Source)
    requires Enabled(s, Proc) && i != Reset && s.ppc.PRespond?
    ensures SameWork(s, Next(s, table, Proc), i)
  {
  }

  lemma InterruptRuns(s: State, table: set<Command>, a: Action, i: Source)
    requires Enabled(s, a) && !a.Recv? && !a.Proc? && i != Reset
    ensures SameWork(s, Next(s, table, a), i)
  {
  }

  lemma WorkStep(s: State, table: set<Command>, a: Action, i: Source)
    requires Inv(s, table) && Enabled(s, a) && i != Reset && Account(s, i)
    ensures Account(Next(s, table, a), i)
  {
    match a
    case Recv(f) => RecvRuns(s, table, f, i);
    case Proc =>
      if s.ppc.PLoad? {
        LoadRuns(s, table, i);
      } else if s.ppc.PRun? {
        RunRuns(s, table, i);
      } else {
        RestRuns(s, table, i);
      }
    case _ => InterruptRuns(s, table, a, i);
  }

  /** The processor runs the clean requests it loads, once each and in order. */
  lemma {:induction false} RanIsServed(states: seq<State>, actions: seq<Action>, table: set<Command>, i: Source, k: nat)
    requires Run(states, actions, table) && TimelyRun(states, actions) && Init(states[0]) && k < |states| && i != Reset
    ensures Account(states[k], i)
    decreases k
  {
    if k > 0 {
      RanIsServed(states, actions, table, i, k - 1);
      InitInv(states[0], table);
      RunKeeps(states, actions, table, k - 1);
      WorkStep(states[k - 1], table, actions[k - 1], i);
    }
  }

  /** The chip-ops run are the allowed commands read, in order, without one left out in between;
      when the protocol has come to rest, they are all of them. */
  lemma RanAreAllowed(states: seq<State>, actions: seq<Action>, table: set<Command>, i: Source, k: nat)
    requires Run(states, actions, table) && TimelyRun(states, actions) && Init(states[0]) && k < |states| && i != Reset
    ensures var ran, allowed := HistoryOf(states[k], i).ran, Commands(Requests(states, actions, table, i, k));
      ran <= allowed && (states[k].fault == NoFault && AtRest(states[k]) ==> ran == allowed)
  {
    var s := states[k];
    PostedAreRequests(states, actions, table, i, k);
    RanIsServed(states, actions, table, i, k);
    NothingLost(states, actions, table, k);
    CommandsPrefix(HistoryOf(s, i).served, HistoryOf(s, i).posted);
    CommandsPrefix(HistoryOf(s, i).posted, Handed(s, i));
    if s.fault == NoFault && AtRest(s) {
      InitInv(states[0], table);
      RunKeeps(states, actions, table, k);
      StuckOnlyWhenIdle(s, table);
    }
  }

  /** No chip-op runs that was not read as an allowed command of the table. */
  lemma NoneFencedRuns(states: seq<State>, actions: seq<Action>, table: set<Command>, i: Source, k: nat, c: Command)
      returns (j: nat)
    requires Run(states, actions, table) && TimelyRun(states, actions) && Init(states[0]) && k < |states| && i != Reset
    requires c in HistoryOf(states[k], i).ran
    ensures j < k && Reads(states[j], actions[j], i) && actions[j].fetch == Arrived(c, true) && c in table
  {
    RanAreAllowed(states, actions, table, i, k);
    CommandsAreClean(Requests(states, actions, table, i, k), c);
    j := RequestWasRead(states, actions, table, i, k, Header(c, Clean));
  }

  lemma {:induction false} CommandsAreClean(hs: seq<Header>, c: Command)
    requires c in Commands(hs)
    ensures Header(c, Clean) in hs
  {
    var n := |hs| - 1;
    if !(hs[n].status == Clean && hs[n].command == c) {
      CommandsAreClean(hs[..n], c);
    }
  }

  // ----- from the read to the receiver's next wait

  /** What the receiver has done with a fetch when it waits again: posted it, or answered it
      and enabled the interrupt, or reset the FIFO and enabled the interrupts. */
  predicate Decided(p: History, f: Fetch, table: set<Command>, t: State, i: Source) {
    var q := HistoryOf(t, i);
    match f
    case Arrived(c, allowed) =>
      if c in table && !allowed then
        q.posted == p.posted && q.responses == p.responses + 1 && q.resets == p.resets && Unmasked(t, i)
      else
        && q.posted == p.posted + [Header(c, if c in table then Clean else BadCommand)]
        && q.responses == p.responses && q.resets == p.resets
    case OutOfSequence(partial) =>
      q.posted == p.posted + [Header(partial, BadData)] && q.responses == p.responses && q.resets == p.resets
    case ResetSeen =>
      i == Fifo && q.posted == p.posted && q.responses == p.responses && q.resets == p.resets + 1 && Unmasked(t, i)
    case Failed => false
  }

  /** On the way from the read to the wait. */
  predicate OnTheWay(p: History, f: Fetch, table: set<Command>, t: State, i: Source) {
    var q := HistoryOf(t, i);
    var fenced := f.Arrived? && f.command in table && !f.allowed;
    match t.rpc
    case RMark | RDispatch =>
      && t.cur == i && q.posted == p.posted && q.responses == p.responses && q.resets == p.resets
      && (if fenced then t.rc == NotAllowed
          else if f.ResetSeen? then i == Fifo && t.rc == ResetReceived
          else if f.Failed? then t.rc == AccessFailure
          else t.rc == Success && [HeaderOf(t, i)] == Request(f, table))
    case RReject =>
      fenced && t.cur == i && q.posted == p.posted && q.responses == p.responses && q.resets == p.resets
    case RClear =>
      fenced && t.cur == i && q.posted == p.posted && q.responses == p.responses + 1 && q.resets == p.resets
    case RUnmaskPsu =>
      fenced && i == Psu && q.posted == p.posted && q.responses == p.responses + 1 && q.resets == p.resets
    case RResetFifo =>
      f.ResetSeen? && i == Fifo && q.posted == p.posted && q.responses == p.responses && q.resets == p.resets
    case RResetReset =>
      f.ResetSeen? && i == Fifo && q.posted == p.posted && q.responses == p.responses && q.resets == p.resets + 1
    case RUnmaskData =>
      && i == Fifo && q.posted == p.posted
      && (if fenced then q.responses == p.responses + 1 && q.resets == p.resets
          else f.ResetSeen? && q.responses == p.responses && q.resets == p.resets + 1)
    case RUnmaskReset =>
      && i == Fifo && t.dataIrq && q.posted == p.posted
      && (if fenced then q.responses == p.responses + 1 && q.resets == p.resets
          else f.ResetSeen? && q.responses == p.responses && q.resets == p.resets + 1)
    case RWait => Decided(p, f, table, t, i)
    case _ => false
  }

  predicate StoppedAt(t: State) { t.fault != NoFault && t.rpc == RDispatch }

  lemma ReadStarts(s: State, table: set<Command>, f: Fetch, i: Source)
    requires Enabled(s, Recv(f)) && Reading(s) && i != Reset && Reads(s, Recv(f), i)
    ensures OnTheWay(HistoryOf(s, i), f, table, Next(s, table, Recv(f)), i)
  {
  }

  lemma MarkGoesOn(p: History, f: Fetch, table: set<Command>, s: State, g: Fetch, i: Source)
    requires Enabled(s, Recv(g)) && i != Reset && s.rpc.RMark? && OnTheWay(p, f, table, s, i)
    ensures OnTheWay(p, f, table, Next(s, table, Recv(g)), i)
  {
  }

  lemma DispatchGoesOn(p: History, f: Fetch, table: set<Command>, s: State, g: Fetch, i: Source)
    requires Enabled(s, Recv(g)) && i != Reset && s.rpc.RDispatch? && s.procSem < MAX_SEMAPHORE_COUNT
    requires OnTheWay(p, f, table, s, i)
    ensures StoppedAt(Next(s, table, Recv(g))) || OnTheWay(p, f, table, Next(s, table, Recv(g)), i)
  {
  }

  lemma AnswerGoesOn(p: History, f: Fetch, table: set<Command>, s: State, g: Fetch, i: Source)
    requires Enabled(s, Recv(g)) && i != Reset && (s.rpc.RReject? || s.rpc.RClear?) && OnTheWay(p, f, table, s, i)
    ensures OnTheWay(p, f, table, Next(s, table, Recv(g)), i)
  {
  }

  lemma ResetGoesOn(p: History, f: Fetch, table: set<Command>, s: State, g: Fetch, i: Source)
    requires Enabled(s, Recv(g)) && i != Reset && (s.rpc.RResetFifo? || s.rpc.RResetReset?) && OnTheWay(p, f, table, s, i)
    ensures OnTheWay(p, f, table, Next(s, table, Recv(g)), i)
  {
  }

  lemma UnmaskGoesOn(p: History, f: Fetch, table: set<Command>, s: State, g: Fetch, i: Source)
    requires Enabled(s, Recv(g)) && i != Reset && (s.rpc.RUnmaskPsu? || s.rpc.RUnmaskData? || s.rpc.RUnmaskReset?)
    requires OnTheWay(p, f, table, s, i)
    ensures OnTheWay(p, f, table, Next(s, table, Recv(g)), i)
  {
  }

  lemma InterruptGoesOn(p: History, f: Fetch, table: set<Command>, s: State, a: Action, i: Source)
    requires Inv(s, table) && Enabled(s, a) && Timely(s, a) && !a.Recv? && !a.Proc? && i != Reset && s.rpc != RWait
    requires OnTheWay(p, f, table, s, i) && s.recvSem < MAX_SEMAPHORE_COUNT
    ensures OnTheWay(p, f, table, Next(s, table, a), i)
  {
  }

  lemma GoesOn(p: History, f: Fetch, table: set<Command>, s: State, a: Action, i: Source)
    requires Inv(s, table) && Enabled(s, a) && Timely(s, a) && i != Reset && s.rpc != RWait
    requires OnTheWay(p, f, table, s, i) && s.recvSem < MAX_SEMAPHORE_COUNT && s.procSem < MAX_SEMAPHORE_COUNT
    ensures StoppedAt(Next(s, table, a)) || OnTheWay(p, f, table, Next(s, table, a), i)
  {
    match a
    case Recv(g) =>
      if s.rpc.RMark? {
        MarkGoesOn(p, f, table, s, g, i);
      } else if s.rpc.RDispatch? {
        DispatchGoesOn(p, f, table, s, g, i);
      } else if s.rpc.RReject? || s.rpc.RClear? {
        AnswerGoesOn(p, f, table, s, g, i);
      } else if s.rpc.RResetFifo? || s.rpc.RResetReset? {
        ResetGoesOn(p, f, table, s, g, i);
      } else {
        UnmaskGoesOn(p, f, table, s, g, i);
      }
    case _ => InterruptGoesOn(p, f, table, s, a, i);
  }

  /** After a read at step `k` the receiver has not waited before step `m`. */
  ghost predicate BusyUntil(states: seq<State>, k: nat, m: nat)
    requires m < |states|
  {
    k < m && forall j :: k < j < m ==> states[j].rpc != RWait
  }

  lemma RunStepOn(states: seq<State>, actions: seq<Action>, table: set<Command>, i: Source, m: nat, p: History, f: Fetch)
    requires Run(states, actions, table) && TimelyRun(states, actions) && Init(states[0]) && m < |actions| && i != Reset
    requires states[m].rpc != RWait && (StoppedAt(states[m]) || OnTheWay(p, f, table, states[m], i))
    ensures StoppedAt(states[m + 1]) || OnTheWay(p, f, table, states[m + 1], i)
  {
    RunSafe(states, actions, table, m);
    InitInv(states[0], table);
    RunKeeps(states, actions, table, m);
    GoesOn(p, f, table, states[m], actions[m], i);
  }

  lemma {:induction false} StaysOnTheWay(states: seq<State>, actions: seq<Action>, table: set<Command>, i: Source, k: nat, m: nat)
    requires Run(states, actions, table) && TimelyRun(states, actions) && Init(states[0]) && m < |states| && i != Reset
    requires BusyUntil(states, k, m) && Reads(states[k], actions[k], i)
    ensures StoppedAt(states[m]) || OnTheWay(HistoryOf(states[k], i), actions[k].fetch, table, states[m], i)
    decreases m
  {
    var p, f := HistoryOf(states[k], i), actions[k].fetch;
    if m == k + 1 {
      PostedAreRequests(states, actions, table, i, k);
      ReadStarts(states[k], table, f, i);
    } else {
      StaysOnTheWay(states, actions, table, i, k, m - 1);
      RunStepOn(states, actions, table, i, m - 1, p, f);
    }
  }

  /** What becomes of each fetch, whatever interrupts come in between: when the receiver waits
      again, an allowed command is posted as clean, a command outside the table or a read out
      of sequence as bad; a fenced command is not posted but answered, a reset seen is done,
      and their interrupts are enabled; after a failed access the receiver never waits again. */
  lemma ReadDecides(states: seq<State>, actions: seq<Action>, table: set<Command>, i: Source, k: nat, m: nat)
    requires Run(states, actions, table) && TimelyRun(states, actions) && Init(states[0]) && m < |states| && i != Reset
    requires BusyUntil(states, k, m) && states[m].rpc == RWait && Reads(states[k], actions[k], i)
    ensures Decided(HistoryOf(states[k], i), actions[k].fetch, table, states[m], i)
  {
    StaysOnTheWay(states, actions, table, i, k, m);
  }
}
