/** `ppe2fsp`: the trace of an embedded core rewritten as a trace buffer of the service
    processor, from the newest entry back and from the end of the data area forward. */
module TraceConverter {
  import opened Bytes
  import opened TraceTime
  import opened TraceBuffer
  import opened TraceEntry

  // ----- what the conversion yields

  /** The bytes of an entry and the data buffer it leaves behind. */
  type Rewrite = (seq<byte>, Raw, u64) -> (seq<byte>, seq<byte>)

  function Rewriter(t: Trace): Rewrite
    requires t.hz > 0
  {
    (data: seq<byte>, e: Raw, time: u64) =>
      if |data| == DATA && Convertible(e) then (EntryBytes(t, data, e, time), DataAfter(t, data, e)) else ([], data)
  }

  function StampsOf(walk: seq<Raw>): (r: seq<u32>)
    ensures |r| == |walk|
  {
    seq(|walk|, i requires 0 <= i < |walk| => Stamp(walk[i].footer))
  }

  /** The entries of `walk`, at `times`, rewritten one after the other. */
  function Conversions(step: Rewrite, data: seq<byte>, walk: seq<Raw>, times: seq<u64>, adjust: u64): (r: seq<seq<byte>>)
    requires |times| == |walk|
    ensures |r| == |walk|
    decreases |walk|
  {
    if walk == [] then []
    else
      var s := step(data, walk[0], (times[0] + adjust) % POW2_64);
      [s.0] + Conversions(step, s.1, walk[1..], times[1..], adjust)
  }

  /** What is in the data buffer before the `i`th entry. */
  function DataBefore(step: Rewrite, data: seq<byte>, walk: seq<Raw>, times: seq<u64>, adjust: u64, i: nat): seq<byte>
    requires i <= |walk| == |times|
    decreases i
  {
    if i == 0 then data
    else DataBefore(step, step(data, walk[0], (times[0] + adjust) % POW2_64).1, walk[1..], times[1..], adjust, i - 1)
  }

  /** Each entry is rewritten at its own time and the adjustment. */
  lemma {:induction false} ConversionAt(step: Rewrite, data: seq<byte>, walk: seq<Raw>, times: seq<u64>, adjust: u64, i: nat)
    requires i < |walk| == |times|
    ensures Conversions(step, data, walk, times, adjust)[i]
         == step(DataBefore(step, data, walk, times, adjust, i), walk[i], (times[i] + adjust) % POW2_64).0
    decreases i
  {
    if i > 0 {
      ConversionAt(step, step(data, walk[0], (times[0] + adjust) % POW2_64).1, walk[1..], times[1..], adjust, i - 1);
    }
  }

  lemma {:induction false} DataKept(step: Rewrite, data: seq<byte>, walk: seq<Raw>, times: seq<u64>, adjust: u64, i: nat)
    requires i <= |walk| == |times| && |data| == DATA
    requires forall d, e, time {:trigger step(d, e, time)} :: |d| == DATA ==> |step(d, e, time).1| == DATA
    ensures |DataBefore(step, data, walk, times, adjust, i)| == DATA
    decreases i
  {
    if i > 0 {
      DataKept(step, step(data, walk[0], (times[0] + adjust) % POW2_64).1, walk[1..], times[1..], adjust, i - 1);
    }
  }

  lemma RewriterIs(t: Trace, data: seq<byte>, e: Raw, time: u64)
    requires |data| == DATA && t.hz > 0 && Convertible(e)
    ensures Rewriter(t)(data, e, time).0 == EntryBytes(t, data, e, time)
  {
  }

  /** Each converted entry is the bytes of its entry, over what the entries before left in the
      data buffer. */
  lemma {:induction false} EntryConverted(t: Trace, data: seq<byte>, walk: seq<Raw>, times: seq<u64>, i: nat, e: Raw, time: u64)
      returns (d: seq<byte>, b: seq<byte>)
    requires |data| == DATA && t.hz > 0 && i < |walk| == |times| && e == walk[i] && Convertible(e)
    requires time == (times[i] + t.timeAdj) % POW2_64
    ensures |d| == DATA && b == EntryBytes(t, d, e, time)
    ensures b == Conversions(Rewriter(t), data, walk, times, t.timeAdj)[i]
  {
    var step := Rewriter(t);
    RewriterKeeps(t, step);
    d := RewrittenAt(step, data, walk, times, t.timeAdj, i);
    RewriterIs(t, d, e, time);
    b := EntryBytes(t, d, e, time);
  }

  lemma RewriterKeeps(t: Trace, step: Rewrite)
    requires t.hz > 0 && step == Rewriter(t)
    ensures forall d, e, time {:trigger step(d, e, time)} :: |d| == DATA ==> |step(d, e, time).1| == DATA
  {
  }

  lemma RewrittenAt(step: Rewrite, data: seq<byte>, walk: seq<Raw>, times: seq<u64>, adjust: u64, i: nat) returns (d: seq<byte>)
    requires |data| == DATA && i < |walk| == |times|
    requires forall d, e, time {:trigger step(d, e, time)} :: |d| == DATA ==> |step(d, e, time).1| == DATA
    ensures |d| == DATA
    ensures Conversions(step, data, walk, times, adjust)[i] == step(d, walk[i], (times[i] + adjust) % POW2_64).0
  {
    d := DataBefore(step, data, walk, times, adjust, i);
    DataKept(step, data, walk, times, adjust, i);
    ConversionAt(step, data, walk, times, adjust, i);
  }

  /** Where the loop is in the circular buffer, and the time there. */
  datatype Cursor = Cursor(offset: u32, left: nat, time: u64, prev: u32)

  /** How to find an entry, which entries can be converted, and what becomes of them. */
  datatype Job = Job(look: u32 -> Raw, fine: Raw -> bool, step: Rewrite, max: u32, adjust: u64)

  /** The converted entries from a cursor on, newest first, `data` being what is in the data
      buffer before. */
  function Remaining(j: Job, data: seq<byte>, c: Cursor): seq<seq<byte>> {
    var w := Walk(j.look, c.offset, c.left);
    Conversions(j.step, data, w, Times(c.time, c.prev, StampsOf(w), j.max), j.adjust)
  }

  ghost predicate AllFine(j: Job, c: Cursor) {
    var w := Walk(j.look, c.offset, c.left);
    forall i :: 0 <= i < |w| ==> j.fine(w[i])
  }

  /** Where the loop goes on after an entry of `n` bytes. */
  predicate GoesOn(n: nat, offset: u32, left: nat, offset': u32, left': nat) {
    if n > left then left' == 0 && offset' == offset else left' == left - n && offset' == (offset - n) % POW2_32
  }

  /** The entry the loop takes, cut when fewer bytes are left than it needs. */
  function Taken(e: Raw, left: nat): Raw { if e.size > left then Cut(e) else e }

  lemma WalkStep(look: u32 -> Raw, offset: u32, left: nat, offset': u32, left': nat)
    requires left >= FOOTER && look(offset).size > 0 && GoesOn(look(offset).size, offset, left, offset', left')
    ensures Walk(look, offset, left) == [Taken(look(offset), left)] + Walk(look, offset', left')
  {
  }

  function After(j: Job, e: Raw, c: Cursor, offset: u32, left: nat): Cursor {
    Cursor(offset, left, StepTime(c.time, c.prev, Stamp(e.footer), j.max), Stamp(e.footer))
  }

  lemma RemainingStep(j: Job, data: seq<byte>, c: Cursor, offset: u32, left: nat)
    requires c.left >= FOOTER && j.look(c.offset).size > 0
    requires GoesOn(j.look(c.offset).size, c.offset, c.left, offset, left)
    ensures var e := Taken(j.look(c.offset), c.left);
      var c' := After(j, e, c, offset, left);
      var s := j.step(data, e, (c'.time + j.adjust) % POW2_64);
      Remaining(j, data, c) == [s.0] + Remaining(j, s.1, c')
  {
    WalkStep(j.look, c.offset, c.left, offset, left);
    ConversionsStep(j.step, data, Taken(j.look(c.offset), c.left), Walk(j.look, offset, left), c.time, c.prev, j.max, j.adjust);
  }

  lemma FineStep(j: Job, c: Cursor, offset: u32, left: nat)
    requires c.left >= FOOTER && j.look(c.offset).size > 0 && AllFine(j, c)
    requires GoesOn(j.look(c.offset).size, c.offset, c.left, offset, left)
    ensures var e := Taken(j.look(c.offset), c.left); j.fine(e) && AllFine(j, After(j, e, c, offset, left))
  {
    WalkStep(j.look, c.offset, c.left, offset, left);
    var w, w' := Walk(j.look, c.offset, c.left), Walk(j.look, offset, left);
    assert w[0] == Taken(j.look(c.offset), c.left);
    assert forall i :: 0 <= i < |w'| ==> w[i + 1] == w'[i];
  }

  lemma ConversionsStep(step: Rewrite, data: seq<byte>, e: Raw, older: seq<Raw>, time: u64, prev: u32, max: u32, adjust: u64)
    ensures var time' := StepTime(time, prev, Stamp(e.footer), max);
      var s := step(data, e, (time' + adjust) % POW2_64);
      Conversions(step, data, [e] + older, Times(time, prev, StampsOf([e] + older), max), adjust)
      == [s.0] + Conversions(step, s.1, older, Times(time', Stamp(e.footer), StampsOf(older), max), adjust)
  {
    var w := [e] + older;
    var stamps := StampsOf(w);
    assert w[1..] == older;
    assert stamps[1..] == StampsOf(older);
    TimesStep(time, prev, stamps, max);
  }

  lemma TimesStep(time: u64, prev: u32, stamps: seq<u32>, max: u32)
    requires stamps != []
    ensures var time' := StepTime(time, prev, stamps[0], max);
      var ts := Times(time, prev, stamps, max);
      ts[0] == time' && ts[1..] == Times(time', stamps[0], stamps[1..], max)
  {
  }

  // ----- joining from the end

  /** The entries as they lie in the data area, oldest first. */
  function JoinBackward(entries: seq<seq<byte>>): seq<byte> {
    if entries == [] then [] else JoinBackward(entries[1..]) + entries[0]
  }

  function Last(s: seq<byte>, n: nat): (r: seq<byte>)
    ensures |r| == if |s| <= n then |s| else n
  {
    if |s| <= n then s else s[|s| - n..]
  }

  /** The entries that are used to fill `room` bytes, the last of them perhaps in part. */
  function Served(entries: seq<seq<byte>>, room: nat): (r: nat)
    ensures r <= |entries|
  {
    if entries == [] then 0
    else if |entries[0]| >= room then 1
    else 1 + Served(entries[1..], room - |entries[0]|)
  }

  lemma LastStep(older: seq<byte>, b: seq<byte>, room: nat)
    ensures |b| < room ==> Last(older + b, room) == Last(older, room - |b|) + b
    ensures |b| >= room ==> Last(older + b, room) == b[|b| - room..]
  {
  }

  lemma JoinStep(b: seq<byte>, rest: seq<seq<byte>>, room: nat)
    ensures |b| < room ==> Last(JoinBackward([b] + rest), room) == Last(JoinBackward(rest), room - |b|) + b
    ensures |b| >= room ==> Last(JoinBackward([b] + rest), room) == b[|b| - room..]
    ensures |b| < room ==> Served([b] + rest, room) == 1 + Served(rest, room - |b|)
    ensures |b| >= room ==> Served([b] + rest, room) == 1
  {
    assert ([b] + rest)[1..] == rest;
    LastStep(JoinBackward(rest), b, room);
  }

  lemma {:induction false} ServedFills(entries: seq<seq<byte>>, room: nat)
    ensures var k := Served(entries, room);
      && (k == 0 <==> entries == [])
      && (k < |entries| ==> |JoinBackward(entries[..k])| >= room)
      && (k > 1 ==> |JoinBackward(entries[..k - 1])| < room)
  {
    if entries != [] && |entries[0]| < room {
      var rest := entries[1..];
      ServedFills(rest, room - |entries[0]|);
      var k := Served(rest, room - |entries[0]|);
      assert entries[..k + 1][1..] == rest[..k];
      if k > 0 {
        assert entries[..k][1..] == rest[..k - 1];
      }
    } else if entries != [] {
      assert entries[..1][1..] == [];
    }
  }

  // ----- the data area

  /** The area with the end of an entry put before its last bytes. */
  function Placed(area: seq<byte>, entry: seq<byte>, left: nat): (r: seq<byte>)
    requires left <= |area|
    ensures |r| == |area|
  {
    if |entry| <= left then area[..left - |entry|] + entry + area[left..]
    else entry[|entry| - left..] + area[left..]
  }

  /** `fsp_put_entry`: the entry ends where the free bytes end; what does not fit is lost. */
  method PutEntry(area: array<byte>, entry: seq<byte>, bytesLeft: nat)
    requires bytesLeft <= area.Length
    modifies area
    ensures area[..] == Placed(old(area[..]), entry, bytesLeft)
  {
    var to, from, n := 0, 0, 0;
    if |entry| <= bytesLeft {
      to, from, n := bytesLeft - |entry|, 0, |entry|;
    } else {
      to, from, n := 0, |entry| - bytesLeft, bytesLeft;
    }
    forall i | 0 <= i < n {
      area[to + i] := entry[from + i];
    }
  }

  /** Moves the data to the front. */
  method ShiftUp(area: array<byte>, bytesLeft: nat)
    requires bytesLeft <= area.Length
    modifies area
    ensures area[..area.Length - bytesLeft] == old(area[bytesLeft..])
  {
    if bytesLeft != 0 {
      forall i | 0 <= i < area.Length - bytesLeft {
        area[i] := area[bytesLeft + i];
      }
    }
  }

  /** How far the loop is: what is in place and what remains make up the result. */
  ghost predicate Progress(goal: seq<byte>, total: nat, rem: seq<seq<byte>>, area: seq<byte>, left: nat, count: nat) {
    && left <= |area| && goal == Last(JoinBackward(rem), left) + area[left..]
    && total == count + Served(rem, left)
  }

  lemma ProgressStart(all: seq<seq<byte>>, area: seq<byte>)
    ensures Progress(Last(JoinBackward(all), |area|), Served(all, |area|), all, area, |area|, 0)
  {
  }

  lemma Regroup(x: seq<byte>, y: seq<byte>, z: seq<byte>)
    ensures (x + y) + z == x + (y + z)
  {
  }

  lemma ProgressStep(goal: seq<byte>, total: nat, b: seq<byte>, rem: seq<seq<byte>>, area: seq<byte>, area': seq<byte>,
                     left: nat, count: nat)
    requires Progress(goal, total, [b] + rem, area, left, count) && area' == Placed(area, b, left)
    ensures |b| < left ==> Progress(goal, total, rem, area', left - |b|, count + 1)
    ensures |b| >= left ==> goal == area' && total == count + 1
  {
    PlacedTail(area, b, left);
    ProgressMoves(goal, total, b, rem, area, area', left, count);
  }

  lemma PlacedTail(area: seq<byte>, b: seq<byte>, left: nat)
    requires left <= |area|
    ensures |b| < left ==> Placed(area, b, left)[left - |b|..] == b + area[left..]
    ensures |b| >= left ==> Placed(area, b, left) == b[|b| - left..] + area[left..]
  {
  }

  lemma ProgressMoves(goal: seq<byte>, total: nat, b: seq<byte>, rem: seq<seq<byte>>, area: seq<byte>, area': seq<byte>,
                      left: nat, count: nat)
    requires Progress(goal, total, [b] + rem, area, left, count) && |area'| == |area|
    requires |b| < left ==> area'[left - |b|..] == b + area[left..]
    requires |b| >= left ==> area' == b[|b| - left..] + area[left..]
    ensures |b| < left ==> Progress(goal, total, rem, area', left - |b|, count + 1)
    ensures |b| >= left ==> goal == area' && total == count + 1
  {
    JoinStep(b, rem, left);
    if |b| < left {
      Regroup(Last(JoinBackward(rem), left - |b|), b, area[left..]);
    }
  }

  lemma ProgressEnd(goal: seq<byte>, total: nat, area: seq<byte>, left: nat, count: nat)
    requires Progress(goal, total, [], area, left, count)
    ensures goal == area[left..] && total == count
  {
  }

  // ----- the conversion

  /** The job does what the converter does with `t`. */
  ghost predicate Does(j: Job, t: Trace) {
    && Usable(t.cb) && t.hz > 0 && j.max == t.maxTimeChange && j.adjust == t.timeAdj
    && (forall o: u32 {:trigger EntryAt(Ring(t.cb), o)} :: j.look(o) == EntryAt(Ring(t.cb), o))
    && (forall e {:trigger Convertible(e)} {:trigger Bounded(t.cb, e.footer)} ::
        j.fine(e) ==> Convertible(e) && Bounded(t.cb, e.footer))
    && (forall data, e, time {:trigger EntryBytes(t, data, e, time)} :: |data| == DATA && Convertible(e) ==>
        j.step(data, e, time) == (EntryBytes(t, data, e, time), DataAfter(t, data, e)))
  }

  /** The bytes an entry becomes, put into the data area. */
  method ConvertOne(t: Trace, ghost j: Job, fte: FspEntry, area: array<byte>, e: Raw, time: u64, bytesLeft: nat)
    returns (ghost b: seq<byte>, size: nat)
    requires Does(j, t) && j.fine(e) && fte.data.Length == DATA && fte.data != area && bytesLeft <= area.Length
    modifies fte`head, fte.data, area
    ensures (b, fte.data[..]) == j.step(old(fte.data[..]), e, time) && size == |b|
    ensures area[..] == Placed(old(area[..]), b, bytesLeft)
  {
    assert Convertible(e);
    var entry := fte.Render(t, e, time);
    size, b := |entry|, entry;
    PutEntry(area, entry, bytesLeft);
  }

  method Fetch(t: Trace, ghost j: Job, c: Cursor) returns (e: Raw)
    requires Does(j, t) && AllFine(j, c) && c.left >= FOOTER && c.offset % 8 == 0
    ensures e == j.look(c.offset) && e.size % 8 == 0
  {
    ghost var there := EntryAt(Ring(t.cb), c.offset);
    SizeIsWhole(there.footer);
    CutSame(there);
    if there.size > 0 {
      ghost var w := Walk(j.look, c.offset, c.left);
      assert w[0] == Taken(there, c.left);
      assert Bounded(t.cb, w[0].footer);
    }
    e := GetEntry(t.cb, c.offset);
  }

  /** The entry at the cursor and the cursor after it. */
  method Advance(t: Trace, ghost j: Job, c: Cursor, ghost data: seq<byte>) returns (found: bool, e: Raw, c': Cursor)
    requires Does(j, t) && AllFine(j, c) && c.offset % 8 == 0
    ensures !found ==> Remaining(j, data, c) == []
    ensures found ==> j.fine(e) && AllFine(j, c') && c'.left < c.left && c'.offset % 8 == 0
    ensures found ==>
      var s := j.step(data, e, (c'.time + j.adjust) % POW2_64);
      Remaining(j, data, c) == [s.0] + Remaining(j, s.1, c')
  {
    c' := c;
    found := false;
    if c.left < FOOTER {
      e := Raw(Footer(0, 0, 0, 0, Empty), [], 0);
      return;
    }
    e := Fetch(t, j, c);
    if e.size == 0 {
      return;
    }
    found := true;
    StaysAligned(c.offset, e.size);
    var offset, left := c.offset, 0;
    if e.size > c.left {
      e := e.(footer := e.footer.(complete := 0));
    } else {
      left := c.left - e.size;
      offset := (offset - e.size) % POW2_32;
    }
    RemainingStep(j, data, c, offset, left);
    FineStep(j, c, offset, left);
    c' := Cursor(offset, left, StepTime(c.time, c.prev, Stamp(e.footer), t.maxTimeChange), Stamp(e.footer));
  }

  datatype Turn = NoEntry | Full | More(next: Cursor, left: nat)

  /** One turn of the loop of `ppe2fsp`. */
  method TakeTurn(t: Trace, ghost j: Job, c: Cursor, fte: FspEntry, area: array<byte>, left: nat,
                  ghost goal: seq<byte>, ghost total: nat, ghost count: nat) returns (r: Turn)
    requires Does(j, t) && AllFine(j, c) && c.offset % 8 == 0 && fte.data.Length == DATA && fte.data != area
    requires Progress(goal, total, Remaining(j, fte.data[..], c), area[..], left, count)
    modifies fte`head, fte.data, area
    ensures r.NoEntry? ==> goal == area[left..] && total == count
    ensures r.Full? ==> goal == area[..] && total == count + 1
    ensures r.More? ==> r.next.left < c.left && AllFine(j, r.next) && r.next.offset % 8 == 0
    ensures r.More? ==> Progress(goal, total, Remaining(j, fte.data[..], r.next), area[..], r.left, count + 1)
  {
    ghost var area0 := area[..];
    var found, e, next := Advance(t, j, c, fte.data[..]);
    if !found {
      ProgressEnd(goal, total, area[..], left, count);
      return NoEntry;
    }
    ghost var b;
    var size;
    b, size := ConvertOne(t, j, fte, area, e, (next.time + t.timeAdj) % POW2_64, left);
    ProgressStep(goal, total, b, Remaining(j, fte.data[..], next), area0, area[..], left, count);
    r := if size >= left then Full else More(next, left - size);
  }

  /** The loop of `ppe2fsp`. */
  method ConvertAll(t: Trace, ghost j: Job, start: Cursor, fte: FspEntry, area: array<byte>) returns (left: nat, count: nat)
    requires Does(j, t) && AllFine(j, start) && start.offset % 8 == 0
    requires fte.data.Length == DATA && fte.data != area
    modifies fte`head, fte.data, area
    ensures left <= area.Length
    ensures var all := Remaining(j, old(fte.data[..]), start);
      area[left..] == Last(JoinBackward(all), area.Length) && count == Served(all, area.Length)
  {
    ghost var all := Remaining(j, fte.data[..], start);
    ghost var goal, total := Last(JoinBackward(all), area.Length), Served(all, area.Length);
    ProgressStart(all, area[..]);
    var c := start;
    left, count := area.Length, 0;
    while true
      invariant AllFine(j, c) && c.offset % 8 == 0
      invariant Progress(goal, total, Remaining(j, fte.data[..], c), area[..], left, count)
      decreases c.left
    {
      var r := TakeTurn(t, j, c, fte, area, left, goal, total, count);
      if r.NoEntry? {
        return;
      }
      count := count + 1;
      if r.Full? {
        left := 0;
        return;
      }
      c, left := r.next, r.left;
    }
  }

  // ----- the whole conversion

  function JobOf(t: Trace): Job
    requires |t.cb| > 0 && t.hz > 0
  {
    Job(Look(t.cb), (e: Raw) => Convertible(e) && Bounded(t.cb, e.footer), Rewriter(t), t.maxTimeChange, t.timeAdj)
  }

  lemma JobDoes(t: Trace)
    requires Usable(t.cb) && t.hz > 0
    ensures Does(JobOf(t), t)
  {
  }

  /** The loop starts at the newest entry and its time. */
  function StartOf(t: Trace): Cursor
    requires |t.cb| > 0
  {
    var stamp := Stamp(FooterAt(Ring(t.cb), t.offset));
    Cursor(t.offset, |t.cb|, Newest(t.tbu, stamp), stamp)
  }

  /** The converted entries of a trace, newest first. */
  function Converted(t: Trace, data: seq<byte>): seq<seq<byte>>
    requires |t.cb| > 0 && t.hz > 0
  {
    Remaining(JobOf(t), data, StartOf(t))
  }

  /** What the converter demands of the entries it meets. */
  ghost predicate Demands(t: Trace)
    requires |t.cb| > 0
  {
    var w := Walk(Look(t.cb), t.offset, |t.cb|);
    forall i :: 0 <= i < |w| ==> Bounded(t.cb, w[i].footer)
  }

  lemma StartFine(t: Trace)
    requires |t.cb| > 0 && t.hz > 0 && Demands(t)
    ensures AllFine(JobOf(t), StartOf(t))
  {
    WalkShaped(Ring(t.cb), t.offset, |t.cb|);
  }

  method Start(t: Trace) returns (c: Cursor)
    requires Usable(t.cb) && t.hz > 0 && t.offset % 8 == 0 && Demands(t)
    ensures c == StartOf(t)
  {
    JobDoes(t);
    StartFine(t);
    var e := Fetch(t, JobOf(t), Cursor(t.offset, |t.cb|, 0, 0));
    c := Cursor(t.offset, |t.cb|, Newest(t.tbu, Stamp(e.footer)), Stamp(e.footer));
  }

  function BitAnd(x: nat, y: nat): nat {
    if x == 0 || y == 0 then 0 else 2 * BitAnd(x / 2, y / 2) + if x % 2 == 1 && y % 2 == 1 then 1 else 0
  }

  lemma {:induction false} AndSame(x: nat)
    ensures BitAnd(x, x) == x
  {
    if x > 0 {
      AndSame(x / 2);
    }
  }

  /** The converter's test of the buffer size. */
  lemma {:induction false} AndFindsPowers(n: nat)
    requires n > 0
    ensures BitAnd(n - 1, n) == 0 <==> PowerOfTwo(n)
  {
    if n > 1 {
      assert (n - 1) / 2 == if n % 2 == 0 then n / 2 - 1 else n / 2;
      if n % 2 == 0 {
        AndFindsPowers(n / 2);
      } else {
        AndSame(n / 2);
      }
    }
  }

  datatype Refusal = InvalidVersion | InputTooSmall | InvalidInputSize | InvalidOffset | OutputTooSmall

  datatype Outcome = Refused(why: Refusal) | Done(size: nat, teCount: nat)

  /** The converter's checks, in their order. */
  method Check(t: Trace, inSize: nat, ioSize: nat) returns (ok: bool, why: Refusal)
    requires |t.cb| > 0
    ensures ok <==> t.version == 2 && inSize >= 56 && PowerOfTwo(|t.cb|) && t.offset % 8 == 0 && ioSize >= 40
    ensures !ok ==> match why
      case InvalidVersion => t.version != 2
      case InputTooSmall => t.version == 2 && inSize < 56
      case InvalidInputSize => t.version == 2 && inSize >= 56 && !PowerOfTwo(|t.cb|)
      case InvalidOffset => t.version == 2 && inSize >= 56 && PowerOfTwo(|t.cb|) && t.offset % 8 != 0
      case OutputTooSmall =>
        t.version == 2 && inSize >= 56 && PowerOfTwo(|t.cb|) && t.offset % 8 == 0 && ioSize < 40
  {
    ok, why := false, InvalidVersion;
    if t.version != VERSION {
      return;
    }
    if inSize < IN_HEADER {
      why := InputTooSmall;
      return;
    }
    AndFindsPowers(|t.cb|);
    if BitAnd(|t.cb| - 1, |t.cb|) != 0 {
      why := InvalidInputSize;
      return;
    }
    if t.offset % 8 != 0 {
      why := InvalidOffset;
      return;
    }
    if ioSize < OUT_HEADER {
      why := OutputTooSmall;
      return;
    }
    ok := true;
  }

  /** The data area starts with the last bytes of the converted entries, joined oldest to
      newest, as many as it can hold; size and entry count say how many. */
  ghost predicate Shows(r: Outcome, all: seq<seq<byte>>, area: seq<byte>) {
    var shown := Last(JoinBackward(all), |area|);
    area[..|shown|] == shown && r == Done(40 + |shown|, Served(all, |area|))
  }

  /** `ppe2fsp` */
  method Ppe2Fsp(t: Trace, inSize: nat, fte: FspEntry, area: array<byte>, ioSize: nat) returns (r: Outcome)
    requires FOOTER <= |t.cb| <= 0xFFFF && t.hz > 0 && Demands(t)
    requires ioSize >= 40 ==> area.Length == ioSize - 40
    requires fte.data.Length == DATA && fte.data != area
    modifies fte`head, fte.data, area
    ensures r.Done? <==>
      t.version == 2 && inSize >= 56 && PowerOfTwo(|t.cb|) && t.offset % 8 == 0 && ioSize >= 40
    ensures r.Done? ==> Shows(r, Converted(t, old(fte.data[..])), area[..])
  {
    var ok, why := Check(t, inSize, ioSize);
    if !ok {
      return Refused(why);
    }
    LargestPower(|t.cb|);
    r := ConvertTrace(t, fte, area);
  }

  lemma LargestPower(n: nat)
    requires PowerOfTwo(n) && n <= 0xFFFF
    ensures n <= 0x8000
  {
    Pow2Word();
    if n > 0x8000 {
      PowerDivides(n, 16);
      var m: nat :| n * m == Pow2(16);
      TooLarge(n, m);
    }
  }

  lemma TooLarge(n: nat, m: nat)
    requires 0x8000 < n < 0x1_0000
    ensures n * m != 0x1_0000
  {
    if m >= 2 {
      assert n * m >= n * 2;
    }
  }

  method ConvertTrace(t: Trace, fte: FspEntry, area: array<byte>) returns (r: Outcome)
    requires Usable(t.cb) && t.hz > 0 && t.offset % 8 == 0 && Demands(t)
    requires fte.data.Length == DATA && fte.data != area
    modifies fte`head, fte.data, area
    ensures r.Done? && Shows(r, Converted(t, old(fte.data[..])), area[..])
  {
    JobDoes(t);
    StartFine(t);
    var c := Start(t);
    var left, count := ConvertAll(t, JobOf(t), c, fte, area);
    ShiftUp(area, left);
    r := Done(OUT_HEADER + area.Length - left, count);
  }

  // ----- reading the result back

  /** An entry ends with its own length. */
  predicate SelfSized(e: seq<byte>) { |e| >= 4 && BeVal(e[|e| - 4..]) == |e| }

  /** A reader goes back from the end by the size words as long as an entry is whole. */
  function ReadBack(d: seq<byte>): seq<seq<byte>> {
    if |d| < 4 then []
    else
      var n := BeVal(d[|d| - 4..]);
      if n < 4 || n > |d| then [] else [d[|d| - n..]] + ReadBack(d[..|d| - n])
  }

  /** The newest entries that fit `room` whole. */
  function WholeEntries(entries: seq<seq<byte>>, room: nat): seq<seq<byte>> {
    if entries == [] || |entries[0]| > room then []
    else [entries[0]] + WholeEntries(entries[1..], room - |entries[0]|)
  }

  lemma TailOfTail(older: seq<byte>, e: seq<byte>, n: nat, k: nat)
    requires k <= |e| && k <= n <= |older| + |e|
    ensures var d := Last(older + e, n); |d| == n && d[n - k..] == e[|e| - k..]
  {
  }

  lemma FrontOfTail(older: seq<byte>, e: seq<byte>, n: nat)
    requires |e| <= n <= |older| + |e|
    ensures Last(older + e, n)[..n - |e|] == Last(older, n - |e|)
  {
  }

  /** Reading back recovers every entry that is whole, and nothing else. */
  lemma {:induction false} ReadBackFinds(entries: seq<seq<byte>>, n: nat)
    requires forall i :: 0 <= i < |entries| ==> SelfSized(entries[i])
    requires n <= |JoinBackward(entries)|
    ensures ReadBack(Last(JoinBackward(entries), n)) == WholeEntries(entries, n)
    decreases |entries|
  {
    if entries != [] && n >= 4 {
      var e, older := entries[0], JoinBackward(entries[1..]);
      var d := Last(older + e, n);
      TailOfTail(older, e, n, 4);
      ReadBackOne(d, e);
      if |e| <= n {
        TailOfTail(older, e, n, |e|);
        FrontOfTail(older, e, n);
        ReadBackFinds(entries[1..], n - |e|);
      }
    }
  }

  lemma {:induction false} ReadBackOne(d: seq<byte>, e: seq<byte>)
    requires SelfSized(e) && |d| >= 4 && d[|d| - 4..] == e[|e| - 4..]
    ensures |e| > |d| ==> ReadBack(d) == []
    ensures |e| <= |d| && d[|d| - |e|..] == e ==> ReadBack(d) == [e] + ReadBack(d[..|d| - |e|])
  {
  }

  lemma EntrySelfSized(t: Trace, data: seq<byte>, e: Raw, time: u64)
    requires |data| == DATA && Convertible(e) && t.hz > 0
    ensures SelfSized(EntryBytes(t, data, e, time))
  {
    var b, room := EntryBytes(t, data, e, time), Room(e.footer);
    BodyFits(t, e);
    TailIsSize(HeadBytes(HeadOf(t, e, time)), data, Body(t, e), room);
    assert Pow256(4) == POW2_32;
    BeRoundTrip(|b|, 4);
  }

  lemma TailIsSize(head: seq<byte>, data: seq<byte>, body: seq<byte>, room: nat)
    requires |data| == DATA && |body| <= room <= DATA - 4
    ensures var b := head + Filled(data, body, room)[..room + 4];
      |b| >= 4 && b[|b| - 4..] == BeBytes(STAMP_AND_HEAD + room + 4, 4)
  {
  }

  /** What holds of every step's result holds of all conversions. */
  lemma {:induction false} ConversionsAll(step: Rewrite, fine: Raw -> bool, data: seq<byte>, walk: seq<Raw>, times: seq<u64>, adjust: u64)
    requires |times| == |walk| && |data| == DATA && forall i :: 0 <= i < |walk| ==> fine(walk[i])
    requires forall d, e, time :: |d| == DATA && fine(e) ==> SelfSized(step(d, e, time).0) && |step(d, e, time).1| == DATA
    ensures forall i :: 0 <= i < |walk| ==> SelfSized(Conversions(step, data, walk, times, adjust)[i])
    decreases |walk|
  {
    if walk != [] {
      var s := step(data, walk[0], (times[0] + adjust) % POW2_64);
      ConversionsAll(step, fine, s.1, walk[1..], times[1..], adjust);
    }
  }

  lemma ConvertedSelfSized(t: Trace, data: seq<byte>)
    requires |t.cb| > 0 && t.hz > 0 && Demands(t) && |data| == DATA
    ensures forall i :: 0 <= i < |Converted(t, data)| ==> SelfSized(Converted(t, data)[i])
  {
    var j, c := JobOf(t), StartOf(t);
    StartFine(t);
    forall d, e, time | |d| == DATA && j.fine(e)
      ensures SelfSized(j.step(d, e, time).0) && |j.step(d, e, time).1| == DATA
    {
      EntrySelfSized(t, d, e, time);
    }
    var w := Walk(j.look, c.offset, c.left);
    ConversionsAll(j.step, j.fine, data, w, Times(c.time, c.prev, StampsOf(w), j.max), j.adjust);
  }

  lemma {:induction false} WholeOfAll(entries: seq<seq<byte>>, room: nat)
    requires room >= |JoinBackward(entries)|
    ensures WholeEntries(entries, room) == entries
  {
    if entries != [] {
      WholeOfAll(entries[1..], room - |entries[0]|);
    }
  }

  /** From the data area of any capacity the size words lead back to exactly the converted
      entries that are there whole. */
  lemma ReadBackShown(t: Trace, data: seq<byte>, capacity: nat)
    requires |t.cb| > 0 && t.hz > 0 && Demands(t) && |data| == DATA
    ensures var all := Converted(t, data);
      ReadBack(Last(JoinBackward(all), capacity)) == WholeEntries(all, capacity)
  {
    var all := Converted(t, data);
    ConvertedSelfSized(t, data);
    if capacity <= |JoinBackward(all)| {
      ReadBackFinds(all, capacity);
    } else {
      ReadBackFinds(all, |JoinBackward(all)|);
      WholeOfAll(all, |JoinBackward(all)|);
      WholeOfAll(all, capacity);
    }
  }

  /** With true times `times` behind the stamps, the entries are converted at their true
      times whenever no step between neighbours leaves the window. */
  lemma ConvertedAtTrueTimes(t: Trace, data: seq<byte>, times: seq<u64>)
    requires |t.cb| > 0 && t.hz > 0
    requires var w := Walk(Look(t.cb), t.offset, |t.cb|); w != [] && StampsOf(w) == Stamps(times)
    requires t.tbu == times[0] / POW2_32 && times[0] / 0x1000_0000_0000_0000 % 2 == 0
    requires AllInWindow(times[0], times, t.maxTimeChange)
    ensures Converted(t, data) == Conversions(Rewriter(t), data, Walk(Look(t.cb), t.offset, |t.cb|), times, t.timeAdj)
  {
    NewestIsTrue(times[0]);
    TimesAreExact(times[0], times, t.maxTimeChange);
    FirstStamp(t);
    var w := Walk(Look(t.cb), t.offset, |t.cb|);
    assert StampsOf(w)[0] == Stamps(times)[0] == times[0] % POW2_32;
  }

  lemma FirstStamp(t: Trace)
    requires |t.cb| > 0 && Walk(Look(t.cb), t.offset, |t.cb|) != []
    ensures StampsOf(Walk(Look(t.cb), t.offset, |t.cb|))[0] == StartOf(t).prev
  {
  }
}
