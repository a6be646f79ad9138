/** `sbeMemAccessInterface`: byte streams of any length over a bus that moves whole
    granules, a limited number of them per hardware setup. */
module MemAccess {
  import opened Bytes

  const BUFFER_SIZE: nat := 128

  /** The hardware procedures called, in order, with what they were told. */
  datatype Event =
    | Setup(at: nat, granted: nat)
    | Access(at: nat, first: bool, cleanup: bool, data: seq<byte>)

  // ----- the hardware's view of a sequence of calls

  /** A setup opens a window of `left` granules; `untouched` until the first access. */
  datatype Window = Closed | Open(left: nat, untouched: bool) | Violated

  function After(w: Window, e: Event): Window {
    match e
    case Setup(_, granted) => if w.Closed? && granted > 0 then Open(granted, true) else Violated
    case Access(_, first, cleanup, _) =>
      if w.Open? && w.left > 0 && first == w.untouched && (w.left == 1 ==> cleanup)
      then if cleanup then Closed else Open(w.left - 1, false)
      else Violated
  }

  /** The state of the window after all calls; `Violated` once one of them breaks the rules. */
  function Windows(log: seq<Event>): Window {
    if log == [] then Closed
    else if Windows(log[..|log| - 1]).Violated? then Violated
    else After(Windows(log[..|log| - 1]), log[|log| - 1])
  }

  /** The data of the accesses, joined. */
  function Data(log: seq<Event>): seq<byte> {
    if log == [] then []
    else Data(log[..|log| - 1]) + (if log[|log| - 1].Access? then log[|log| - 1].data else [])
  }

  /** Each access carries one granule and follows the one before it in memory. */
  ghost predicate Contiguous(log: seq<Event>, start: nat, granule: nat) {
    log != [] ==>
      var before, e := log[..|log| - 1], log[|log| - 1];
      && Contiguous(before, start, granule)
      && e.at == start + |Data(before)|
      && (e.Access? ==> |e.data| == granule)
  }

  lemma LogStep(log: seq<Event>, e: Event, start: nat, granule: nat)
    ensures Data(log + [e]) == Data(log) + (if e.Access? then e.data else [])
    ensures !Windows(log).Violated? ==> Windows(log + [e]) == After(Windows(log), e)
    ensures (Contiguous(log, start, granule) && e.at == start + |Data(log)| && (e.Access? ==> |e.data| == granule))
              ==> Contiguous(log + [e], start, granule)
  {
    assert (log + [e])[..|log|] == log;
  }

  predicate Closing(e: Event) { e.Access? && e.cleanup }

  /** What the window is after `k` calls that keep the rules. */
  lemma {:induction false} WindowAfter(log: seq<Event>, k: nat)
    requires !Windows(log).Violated? && k <= |log|
    ensures var w := Windows(log[..k]);
      && !w.Violated? && (w.Closed? <==> k == 0 || Closing(log[k - 1]))
      && (w.Open? ==> (w.untouched <==> log[k - 1].Setup?))
    decreases |log| - k
  {
    if k == |log| {
      assert log[..k] == log;
    } else {
      WindowAfter(log, k + 1);
      assert log[..k + 1][..k] == log[..k];
    }
    if k > 0 {
      assert log[..k][..k - 1] == log[..k - 1];
    }
  }

  /** The rules, call by call: a setup grants something and comes first or after a cleaned up
      access; an access comes in an open window, and is called the first exactly when it follows
      the setup. */
  lemma CallsKeepRules(log: seq<Event>, k: nat)
    requires !Windows(log).Violated? && k < |log|
    ensures match log[k]
      case Setup(_, granted) => granted > 0 && (k == 0 || Closing(log[k - 1]))
      case Access(_, first, _, _) => k > 0 && !Closing(log[k - 1]) && (first <==> log[k - 1].Setup?)
  {
    WindowAfter(log, k);
    WindowAfter(log, k + 1);
    assert log[..k + 1][..k] == log[..k];
  }

  /** No window is used for more accesses than it was granted, and the last one granted cleans
      up. */
  lemma {:induction false} BudgetKept(log: seq<Event>, j: nat, k: nat)
    requires !Windows(log).Violated? && j < k < |log| && log[j].Setup? && forall m :: j < m <= k ==> log[m].Access?
    ensures k - j <= log[j].granted && (k - j == log[j].granted ==> log[k].cleanup)
    ensures Windows(log[..k]) == Open(log[j].granted - (k - 1 - j), k == j + 1)
    decreases k
  {
    CallsKeepRules(log, k);
    WindowAfter(log, k);
    WindowAfter(log, k + 1);
    assert log[..k][..k - 1] == log[..k - 1] && log[..k + 1][..k] == log[..k];
    if k > j + 1 {
      BudgetKept(log, j, k - 1);
    }
  }

  function Zeros(n: nat): (s: seq<byte>)
    ensures |s| == n && forall i :: 0 <= i < n ==> s[i] == 0
  {
    seq(n, _ => 0)
  }

  /** The number of accesses. */
  function Accesses(log: seq<Event>): nat {
    if log == [] then 0 else Accesses(log[..|log| - 1]) + (if log[|log| - 1].Access? then 1 else 0)
  }

  lemma {:induction false} WholeGranules(log: seq<Event>, start: nat, granule: nat)
    requires Contiguous(log, start, granule)
    ensures |Data(log)| == granule * Accesses(log)
  {
    if log != [] {
      var before := log[..|log| - 1];
      WholeGranules(before, start, granule);
      OneMore(granule, Accesses(before));
    }
  }

  lemma OneMore(g: nat, n: nat)
    ensures g * (n + 1) == g * n + g && g * (n + 0) == g * n
  {
  }

  /** Memory after the accesses of a writer. */
  function Stored(log: seq<Event>, memory: nat -> byte): nat -> byte {
    if log == [] then memory
    else
      var m, e := Stored(log[..|log| - 1], memory), log[|log| - 1];
      if e.Access? then (a: nat) => if e.at <= a < e.at + |e.data| then e.data[a - e.at] else m(a) else m
  }

  /** Memory from the start address holds the data written, and is unchanged elsewhere. */
  lemma {:induction false} StoredIsData(log: seq<Event>, start: nat, granule: nat, memory: nat -> byte, a: nat)
    requires Contiguous(log, start, granule)
    ensures Stored(log, memory)(a)
         == if start <= a < start + |Data(log)| then Data(log)[a - start] else memory(a)
  {
    if log != [] {
      StoredIsData(log[..|log| - 1], start, granule, memory, a);
    }
  }

  /** Memory `now` holds `data` at `start` and is as `before` elsewhere. */
  ghost predicate Holds(now: nat -> byte, before: nat -> byte, start: nat, data: seq<byte>) {
    forall a: nat :: now(a) == if start <= a < start + |data| then data[a - start] else before(a)
  }

  lemma StoredHolds(log: seq<Event>, start: nat, granule: nat, memory: nat -> byte)
    requires Contiguous(log, start, granule)
    ensures Holds(Stored(log, memory), memory, start, Data(log))
  {
    forall a: nat
      ensures Stored(log, memory)(a) == if start <= a < start + |Data(log)| then Data(log)[a - start] else memory(a)
    {
      StoredIsData(log, start, granule, memory, a);
    }
  }

  /** The zeros that complete `n` bytes to whole granules. */
  function Padding(n: nat, granule: nat): nat
    requires granule > 0
  {
    if n % granule == 0 then 0 else granule - n % granule
  }

  lemma PaddingIs(n: nat, granule: nat, pad: nat, a: nat)
    requires pad < granule && n + pad == granule * a
    ensures pad == Padding(n, granule)
  {
    var q, r := n / granule, n % granule;
    assert n == granule * q + r;
    OneMore(granule, q);
    PadUnique(n, granule, pad, a, Padding(n, granule), if r == 0 then q else q + 1);
  }

  lemma Splice(had: seq<byte>, data: seq<byte>, i: nat, j: nat, rest: seq<byte>)
    requires i <= j <= |data|
    ensures (had + data[..i] + Zeros(0)) + data[i..j] + rest == had + data[..j] + rest
    ensures data[..|data|] == data
  {
    assert data[..j] == data[..i] + data[i..j];
  }

  datatype Rc = Success | HwpFailure

  class Interface {
    const start: nat
    const granule: nat
    const reading: bool
    /** The hardware: how many granules each setup grants, whether a call fails, and
        what memory holds. */
    const grant: nat -> nat
    const fails: nat -> bool
    const memory: nat -> byte

    const buffer: array<byte>
    var addr: nat
    var maxGranule: nat
    var depth: nat
    var currGranule: nat
    var cleanedUp: bool
    var calls: nat
    var log: seq<Event>

    ghost predicate Valid()
      reads this
    {
      && 0 < granule <= buffer.Length == BUFFER_SIZE
      && (forall n :: grant(n) > 0)
      && depth <= granule
      && Contiguous(log, start, granule)
      && addr == start + |Data(log)|
      && Windows(log) == (if cleanedUp then Closed else Open(maxGranule, currGranule == 0))
      && (!cleanedUp ==> maxGranule > 0)
    }

    constructor (reading: bool, start: nat, granule: nat, grant: nat -> nat, fails: nat -> bool, memory: nat -> byte)
      requires 0 < granule <= BUFFER_SIZE && forall n :: grant(n) > 0
      ensures Valid() && fresh(buffer)
      ensures this.start == start && this.granule == granule && this.reading == reading
      ensures this.grant == grant && this.fails == fails && this.memory == memory
      ensures log == [] && depth == 0 && cleanedUp
    {
      this.reading, this.start, this.granule := reading, start, granule;
      this.grant, this.fails, this.memory := grant, fails, memory;
      buffer := new byte[BUFFER_SIZE](_ => 0);
      addr, maxGranule, depth, currGranule, cleanedUp, calls, log := start, 0, 0, 0, true, 0, [];
    }

    ghost predicate Failing()
      reads this
    {
      exists n :: fails(n)
    }

    /** Calls the setup procedure for the current address. */
    method SetUp() returns (rc: Rc)
      requires Valid() && cleanedUp
      modifies this
      ensures calls == old(calls) + 1 && rc == if fails(old(calls)) then HwpFailure else Success
      ensures addr == old(addr) && depth == old(depth)
      ensures rc == Success ==> Valid() && !cleanedUp && currGranule == 0 && Data(log) == old(Data(log))
    {
      currGranule, cleanedUp := 0, false;
      calls := calls + 1;
      if fails(calls - 1) {
        return HwpFailure;
      }
      maxGranule := grant(calls - 1);
      LogStep(log, Setup(addr, maxGranule), start, granule);
      log := log + [Setup(addr, maxGranule)];
      rc := Success;
    }

    /** The bookkeeping after a successful access. */
    method Record(closing: bool, data: seq<byte>)
      requires Valid() && !cleanedUp && |data| == granule && (maxGranule == 1 ==> closing)
      modifies this
      ensures Valid() && cleanedUp == closing && addr == old(addr) + granule
      ensures depth == (if reading then granule else 0) && Data(log) == old(Data(log)) + data
    {
      var e := Access(addr, currGranule == 0, closing, data);
      LogStep(log, e, start, granule);
      log := log + [e];
      cleanedUp := closing;
      maxGranule, currGranule := maxGranule - 1, currGranule + 1;
      addr := addr + granule;
      depth := if reading then granule else 0;
    }

    /** The access procedure itself, inside an open window. */
    method Transfer(isLast: bool) returns (rc: Rc)
      requires Valid() && !cleanedUp
      modifies this, buffer
      ensures rc == if fails(old(calls)) then HwpFailure else Success
      ensures rc == Success ==>
        && Valid() && addr == old(addr) + granule && (isLast ==> cleanedUp)
        && depth == (if reading then granule else 0)
        && buffer[..granule] == (if reading then MemoryAt(old(addr)) else old(buffer[..granule]))
        && Data(log) == old(Data(log)) + buffer[..granule]
      ensures !reading ==> buffer[..] == old(buffer[..])
    {
      var closing := isLast || maxGranule == 1;
      calls := calls + 1;
      if fails(calls - 1) {
        cleanedUp := closing;
        return HwpFailure;
      }
      if reading {
        LoadGranule();
      }
      Record(closing, buffer[..granule]);
      rc := Success;
    }

    /** Moves one granule between the buffer and memory, setting up first if need be. */
    method AccessGranule(isLast: bool) returns (rc: Rc)
      requires Valid()
      modifies this, buffer
      ensures !Failing() ==> rc == Success
      ensures rc == Success ==>
        && Valid() && addr == old(addr) + granule && (isLast ==> cleanedUp)
        && depth == (if reading then granule else 0)
        && buffer[..granule] == (if reading then MemoryAt(old(addr)) else old(buffer[..granule]))
        && Data(log) == old(Data(log)) + buffer[..granule]
      ensures !reading ==> buffer[..] == old(buffer[..])
    {
      if cleanedUp {
        rc := SetUp();
        if rc != Success {
          return;
        }
      }
      rc := Transfer(isLast);
    }

    /** What memory holds in the granule at `a`. */
    function MemoryAt(a: nat): seq<byte> {
      seq(granule, (i: nat) => memory(a + i))
    }

    method LoadGranule()
      requires granule <= buffer.Length
      modifies buffer
      ensures buffer[..granule] == MemoryAt(addr)
    {
      for i := 0 to granule
        invariant forall k :: 0 <= k < i ==> buffer[k] == memory(addr + k)
      {
        buffer[i] := memory(addr + i);
      }
    }

    // ----- writing

    /** Everything a writer has handed over: what reached memory and what is buffered. */
    ghost function Accepted(): seq<byte>
      reads this, buffer
      requires depth <= buffer.Length
    {
      Data(log) + buffer[..depth]
    }

    /** Copies bytes into the buffer until it is full or they run out. */
    method Fill(data: seq<byte>, from: nat) returns (next: nat)
      requires Valid() && from <= |data|
      modifies this`depth, buffer
      ensures Valid() && from <= next <= |data| && (next == |data| || depth == granule)
      ensures buffer[..depth] == old(buffer[..depth]) + data[from..next]
    {
      ghost var had := buffer[..depth];
      next := from;
      while depth < granule && next < |data|
        invariant Valid() && from <= next <= |data|
        invariant buffer[..depth] == had + data[from..next]
        decreases |data| - next
      {
        buffer[depth] := data[next];
        depth, next := depth + 1, next + 1;
      }
    }

    /** `alignAccessWithBuffer`: completes a partly filled buffer with zeros. */
    method Align()
      requires Valid()
      modifies this`depth, buffer
      ensures Valid() && depth == (if old(depth) == 0 then 0 else granule)
      ensures buffer[..depth] == old(buffer[..depth]) + (if old(depth) == 0 then [] else Zeros(granule - old(depth)))
    {
      if depth != 0 {
        ghost var had := buffer[..depth];
        while depth < granule
          invariant Valid() && |had| <= depth
          invariant buffer[..depth] == had + Zeros(depth - |had|)
          decreases granule - depth
        {
          buffer[depth] := 0;
          depth := depth + 1;
        }
      }
    }

    /** One round of the writer's loop. */
    method WriteRound(data: seq<byte>, from: nat, isLast: bool) returns (rc: Rc, next: nat, ghost pad: nat)
      requires Valid() && !reading && depth < granule && from <= |data|
      modifies this, buffer
      ensures !Failing() ==> rc == Success
      ensures from <= next <= |data| && (from < |data| ==> from < next)
      ensures rc == Success ==>
        && Valid() && depth < granule && pad < granule
        && Accepted() == old(Accepted()) + data[from..next] + Zeros(pad)
        && (isLast && next == |data| ==> depth == 0 && (from < next || old(depth) > 0 ==> cleanedUp))
        && (!isLast || next < |data| || (from == |data| && old(depth) == 0) ==> pad == 0)
    {
      pad := 0;
      ghost var had := Accepted();
      next := Fill(data, from);
      assert Accepted() == had + data[from..next];
      var isLastGranule := isLast && next >= |data|;
      if isLastGranule {
        pad := if depth == 0 then 0 else granule - depth;
        Align();
        assert Accepted() == had + data[from..next] + Zeros(pad);
      }
      if depth >= granule {
        rc := AccessGranule(isLastGranule);
      } else {
        rc := Success;
      }
    }

    /** `accessWithBuffer` for a writer: after a final write everything has reached
        memory, completed with fewer than a granule of zeros, and the hardware is
        cleaned up unless there was nothing to write. */
    method Write(data: seq<byte>, isLast: bool) returns (rc: Rc, ghost pad: nat)
      requires Valid() && !reading && depth < granule
      modifies this, buffer
      ensures !Failing() ==> rc == Success
      ensures rc == Success ==>
        && Valid() && depth < granule && pad < granule
        && (!isLast || (data == [] && old(depth) == 0) ==> pad == 0)
        && Accepted() == old(Accepted()) + data + Zeros(pad)
        && (isLast ==> depth == 0)
        && (isLast && (|data| > 0 || old(depth) > 0) ==> cleanedUp)
    {
      var next := 0;
      rc, next, pad := WriteRound(data, 0, isLast);
      assert data[0..next] == data[..next];
      while rc == Success && next < |data|
        invariant next <= |data| && (!Failing() ==> rc == Success)
        invariant rc == Success ==>
          && Valid() && depth < granule && pad < granule
          && Accepted() == old(Accepted()) + data[..next] + Zeros(pad)
          && (isLast && next == |data| ==> depth == 0 && (|data| > 0 || old(depth) > 0 ==> cleanedUp))
          && (!isLast || next < |data| || (data == [] && old(depth) == 0) ==> pad == 0)
        decreases |data| - next
      {
        ghost var from := next;
        rc, next, pad := WriteRound(data, next, isLast);
        Splice(old(Accepted()), data, from, next, Zeros(pad));
      }
    }

    /** A message written piece by piece, only its last piece flagged. However it is
        split, memory holds the pieces joined, completed to a whole granule. */
    method WriteAll(pieces: seq<seq<byte>>) returns (rc: Rc, ghost pad: nat)
      requires Valid() && !reading && log == [] && depth == 0
      requires pieces != [] && pieces[|pieces| - 1] != []
      modifies this, buffer
      ensures !Failing() ==> rc == Success
      ensures rc == Success ==>
        && Valid() && cleanedUp && depth == 0 && pad < granule
        && pad == Padding(|Flatten(pieces)|, granule) && Data(log) == Flatten(pieces) + Zeros(pad)
        && Holds(Stored(log, memory), memory, start, Flatten(pieces) + Zeros(pad))
    {
      var i := 0;
      rc, pad := Success, 0;
      while rc == Success && i < |pieces|
        invariant 0 <= i <= |pieces| && (!Failing() ==> rc == Success)
        invariant rc == Success ==>
          && Valid() && depth < granule && pad < granule && Accepted() == Flatten(pieces[..i]) + Zeros(pad)
          && (i < |pieces| ==> pad == 0) && (i == |pieces| ==> depth == 0 && cleanedUp)
      {
        FlattenStep(pieces, i);
        rc, pad := Write(pieces[i], i == |pieces| - 1);
        i := i + 1;
      }
      if rc == Success {
        assert pieces[..|pieces|] == pieces;
        WholeGranules(log, start, granule);
        PaddingIs(|Flatten(pieces)|, granule, pad, Accesses(log));
        StoredHolds(log, start, granule, memory);
      }
    }

    // ----- reading

    /** The bytes left in a reader's buffer are the end of the last granule read. */
    ghost predicate Ahead()
      reads this, buffer
      requires granule <= buffer.Length
    {
      depth <= granule && (depth > 0 ==> granule <= addr && buffer[..granule] == MemoryAt(addr - granule))
    }

    /** What memory holds in the `n` bytes from `at`. */
    ghost function Slice(at: nat, n: nat): seq<byte> {
      seq(n, (i: nat) => memory(at + i))
    }

    /** Copies buffered bytes out until they, or the room for them, run out. */
    method Drain(out: array<byte>, from: nat, len: nat) returns (next: nat)
      requires granule <= buffer.Length && Ahead() && depth > 0 && out != buffer && from <= len <= out.Length
      modifies this`depth, out
      ensures Ahead() && from <= next <= len && (next == len || depth == 0)
      ensures depth + next == old(depth) + from
      ensures out[..next] == old(out[..from]) + Slice(addr - old(depth), next - from)
    {
      ghost var had, at := out[..from], addr - depth;
      next := from;
      while depth > 0 && next < len
        invariant Ahead() && from <= next <= len && depth + next == old(depth) + from
        invariant out[..next] == had + Slice(at, next - from)
        decreases len - next
      {
        assert buffer[granule - depth] == buffer[..granule][granule - depth];
        out[next] := buffer[granule - depth];
        next, depth := next + 1, depth - 1;
      }
    }

    /** Where the next byte of a read comes from: a final read of at most a granule
        skips what is left in the buffer. */
    ghost function Origin(len: nat, isLast: bool): nat
      reads this, buffer
      requires granule <= buffer.Length && Ahead()
    {
      if isLast && len <= granule then addr else addr - depth
    }

    /** Fetches a granule when the buffer is empty, or is about to be skipped. */
    method Refill(left: nat, isLast: bool) returns (rc: Rc)
      requires Valid() && reading && Ahead()
      modifies this, buffer
      ensures !Failing() ==> rc == Success
      ensures rc == Success ==>
        && Valid() && Ahead() && depth > 0 && addr - depth == old(Origin(left, isLast))
        && (isLast && left <= granule ==> cleanedUp)
    {
      var isLastGranule := isLast && left <= granule;
      if isLastGranule {
        depth := 0;
      }
      rc := Success;
      if depth == 0 {
        rc := AccessGranule(isLastGranule);
      }
    }

    /** The first `next` of `len` bytes have been read, from `origin` on. */
    ghost predicate ReadTo(out: array<byte>, origin: nat, next: nat, len: nat, isLast: bool)
      reads this, buffer, out
    {
      && Valid() && Ahead() && next <= len <= out.Length
      && addr - depth == origin + next && out[..next] == Slice(origin, next)
      && (next == len || depth == 0) && (isLast && next == len ==> cleanedUp)
    }

    /** One round of the reader's loop. */
    method ReadRound(out: array<byte>, from: nat, len: nat, isLast: bool, ghost origin: nat) returns (rc: Rc, next: nat)
      requires Valid() && reading && Ahead() && out != buffer && from <= len <= out.Length
      requires out[..from] == Slice(origin, from) && Origin(len - from, isLast) == origin + from
      modifies this, buffer, out
      ensures !Failing() ==> rc == Success
      ensures rc == Success ==> ReadTo(out, origin, next, len, isLast) && from <= next && (from < len ==> from < next)
    {
      next := from;
      rc := Refill(len - from, isLast);
      if rc == Success {
        next := Drain(out, from, len);
        SliceConcat(origin, from, next);
      }
    }

    /** `accessWithBuffer` for a reader: the bytes read are those of memory from where
        the last read stopped, or from `Origin` for a short final read. */
    method Read(out: array<byte>, len: nat, isLast: bool) returns (rc: Rc)
      requires Valid() && reading && Ahead() && out != buffer && len <= out.Length
      modifies this, buffer, out
      ensures !Failing() ==> rc == Success
      ensures rc == Success ==> ReadTo(out, old(Origin(len, isLast)), len, len, isLast)
    {
      ghost var origin := Origin(len, isLast);
      var next;
      rc, next := ReadRound(out, 0, len, isLast, origin);
      while rc == Success && next < len
        invariant !Failing() ==> rc == Success
        invariant rc == Success ==> ReadTo(out, origin, next, len, isLast)
        decreases rc == Success, len - next
      {
        rc, next := ReadRound(out, next, len, isLast, origin);
      }
    }

    lemma SliceConcat(at: nat, n: nat, m: nat)
      requires n <= m
      ensures Slice(at, n) + Slice(at + n, m - n) == Slice(at, m)
    {
    }
  }

  function Flatten(pieces: seq<seq<byte>>): seq<byte> {
    if pieces == [] then [] else Flatten(pieces[..|pieces| - 1]) + pieces[|pieces| - 1]
  }

  lemma FlattenStep(pieces: seq<seq<byte>>, i: nat)
    requires i < |pieces|
    ensures Flatten(pieces[..i + 1]) == Flatten(pieces[..i]) + pieces[i]
  {
    assert pieces[..i + 1][..i] == pieces[..i];
  }

  lemma PadUnique(n: nat, granule: nat, pad: nat, a: nat, pad': nat, a': nat)
    requires pad < granule && pad' < granule
    requires n + pad == granule * a && n + pad' == granule * a'
    ensures pad == pad'
  {
    if a < a' {
      MulStep(granule, a, a');
    } else if a' < a {
      MulStep(granule, a', a);
    }
  }

  /** Two ways to split the same message leave the same memory. */
  method SplitDoesNotMatter(m: Interface, m': Interface, pieces: seq<seq<byte>>, pieces': seq<seq<byte>>) returns (rc: Rc, rc': Rc)
    requires m != m' && m.buffer != m'.buffer
    requires m.Valid() && !m.reading && m.log == [] && m.depth == 0
    requires m'.Valid() && !m'.reading && m'.log == [] && m'.depth == 0
    requires m.start == m'.start && m.granule == m'.granule && m.memory == m'.memory
    requires pieces != [] && pieces[|pieces| - 1] != [] && pieces' != [] && pieces'[|pieces'| - 1] != []
    requires Flatten(pieces) == Flatten(pieces')
    modifies m, m.buffer, m', m'.buffer
    ensures rc == Success && rc' == Success ==> forall a: nat :: Stored(m.log, m.memory)(a) == Stored(m'.log, m'.memory)(a)
  {
    ghost var pad, pad';
    rc, pad := m.WriteAll(pieces);
    rc', pad' := m'.WriteAll(pieces');
  }

  lemma {:induction false} MulStep(g: nat, a: nat, b: nat)
    requires a < b
    ensures g * a + g <= g * b
    decreases b
  {
    OneMore(g, b - 1);
    if a < b - 1 {
      MulStep(g, a, b - 1);
    }
  }
}
