/** The message FIFOs between the SBE and its service processor. The hardware answers
    each poll; the model gives those answers as a sequence. */
module Fifo {
  import opened Bytes

  datatype Rc =
    | Success | AccessFailure | ResetReceived | ParityError | InsufficientData | ExcessData
    | Waiting  // the hardware has given no further answer

  // ----- upstream

  /** One read of the upstream FIFO, by its status flags. */
  datatype Poll = Failed | ResetRequest | Eot(acknowledged: bool) | Parity | Empty | Word(data: u32)

  /** What a dequeue came to: the words seen, and how many answers it took. */
  datatype Dequeued = Dequeued(rc: Rc, words: seq<u32>, polled: nat)

  function Classify(seen: nat, len: nat, eotExpected: bool, flush: bool): Rc {
    if flush || (eotExpected && seen == len) then Success
    else if seen < len then InsufficientData
    else ExcessData
  }

  /** The loop condition. An empty poll comes here too. */
  predicate More(seen: nat, len: nat, eotExpected: bool, flush: bool) {
    flush || eotExpected || seen < len
  }

  /** The dequeue from the `i`th answer on, `words` having been seen. */
  function DequeueFrom(polls: seq<Poll>, i: nat, words: seq<u32>, len: nat, eotExpected: bool, flush: bool): Dequeued
    requires i <= |polls|
    decreases |polls| - i
  {
    if i == |polls| then Dequeued(Waiting, words, i)
    else match polls[i]
      case Failed => Dequeued(AccessFailure, words, i + 1)
      case ResetRequest => Dequeued(ResetReceived, words, i + 1)
      case Eot(acknowledged) =>
        Dequeued(if acknowledged then Classify(|words|, len, eotExpected, flush) else AccessFailure, words, i + 1)
      case Parity => Dequeued(ParityError, words, i + 1)
      case Empty =>
        if More(|words|, len, eotExpected, flush) then DequeueFrom(polls, i + 1, words, len, eotExpected, flush)
        else Dequeued(Success, words, i + 1)
      case Word(data) =>
        if More(|words| + 1, len, eotExpected, flush) then DequeueFrom(polls, i + 1, words + [data], len, eotExpected, flush)
        else Dequeued(Success, words + [data], i + 1)
  }

  function Min(a: nat, b: nat): nat { if a < b then a else b }

  /** `sbeUpFifoDeq_mult`. Only the requested words are stored; all are counted. */
  method UpFifoDeqMult(polls: seq<Poll>, len: nat, out: array<u32>, eotExpected: bool, flush: bool)
      returns (rc: Rc, count: nat, ghost d: Dequeued)
    requires !flush ==> len <= out.Length
    modifies out
    ensures d == DequeueFrom(polls, 0, [], len, eotExpected, flush)
    ensures rc == d.rc && count == |d.words|
    ensures !flush ==> out[..Min(len, count)] == d.words[..Min(len, count)]
    ensures forall k :: (flush || count <= k) && 0 <= k < out.Length ==> out[k] == old(out[k])
    ensures forall k :: len <= k < out.Length ==> out[k] == old(out[k])
  {
    d := DequeueFrom(polls, 0, [], len, eotExpected, flush);
    ghost var words: seq<u32> := [];
    rc, count := Success, 0;
    var i := 0;
    while true
      invariant 0 <= i <= |polls| && count == |words| && rc == Success
      invariant DequeueFrom(polls, i, words, len, eotExpected, flush) == d
      invariant !flush ==> out[..Min(len, count)] == words[..Min(len, count)]
      invariant forall k :: (flush || count <= k || len <= k) && 0 <= k < out.Length ==> out[k] == old(out[k])
      decreases |polls| - i
    {
      if i == |polls| {
        rc := Waiting;
        break;
      }
      var poll := polls[i];
      i := i + 1;
      if poll.Failed? {
        rc := AccessFailure;
        break;
      }
      if poll.ResetRequest? {
        rc := ResetReceived;
        break;
      }
      if poll.Eot? {
        if !poll.acknowledged {
          rc := AccessFailure;
        } else if (!eotExpected || count != len) && !flush {
          rc := if count < len then InsufficientData else ExcessData;
        }
        break;
      }
      if poll.Parity? {
        rc := ParityError;
        break;
      }
      if poll.Word? {
        if !flush && count < len {
          out[count] := poll.data;
        }
        words := words + [poll.data];
        count := count + 1;
      }
      if !(flush || eotExpected || count < len) {
        break;
      }
    }
  }

  /** The words among the answers. */
  function WordsIn(polls: seq<Poll>): seq<u32> {
    if polls == [] then []
    else WordsIn(polls[..|polls| - 1]) + (if polls[|polls| - 1].Word? then [polls[|polls| - 1].data] else [])
  }

  /** The answers before the end of transmission: words with any number of empty polls between. */
  ghost predicate Clean(polls: seq<Poll>) {
    forall i :: 0 <= i < |polls| ==> polls[i].Word? || polls[i].Empty?
  }

  lemma WordsStep(polls: seq<Poll>, i: nat)
    requires i < |polls|
    ensures WordsIn(polls[..i + 1]) == WordsIn(polls[..i]) + (if polls[i].Word? then [polls[i].data] else [])
  {
    assert polls[..i + 1][..i] == polls[..i];
  }

  /** Over clean answers the dequeue only gathers words, as long as it is not full. */
  lemma {:induction false} CleanPrefix(polls: seq<Poll>, i: nat, len: nat, eotExpected: bool)
    requires i <= |polls| && Clean(polls[..i]) && (eotExpected || |WordsIn(polls[..i])| < len)
    ensures DequeueFrom(polls, 0, [], len, eotExpected, false)
         == DequeueFrom(polls, i, WordsIn(polls[..i]), len, eotExpected, false)
    decreases i
  {
    if i == 0 {
      assert polls[..0] == [];
    } else {
      WordsStep(polls, i - 1);
      assert forall k :: 0 <= k < i ==> polls[..i][k] == polls[k];
      CleanPrefix(polls, i - 1, len, eotExpected);
      assert WordsIn(polls[..i - 1]) + [] == WordsIn(polls[..i - 1]);
    }
  }

  /** The answer ends the dequeue: it is no word and no empty poll, or no more words are
      wanted after it. */
  ghost predicate Ends(polls: seq<Poll>, e: nat, len: nat, eotExpected: bool, flush: bool)
    requires e < |polls|
  {
    polls[e].Word? || polls[e].Empty? ==> !flush && !eotExpected && |WordsIn(polls[..e + 1])| >= len
  }

  lemma {:induction false} GoesOn(polls: seq<Poll>, i: nat, len: nat, eotExpected: bool, flush: bool)
    requires i <= |polls| && forall j :: 0 <= j < i ==> !Ends(polls, j, len, eotExpected, flush)
    ensures DequeueFrom(polls, 0, [], len, eotExpected, flush)
         == DequeueFrom(polls, i, WordsIn(polls[..i]), len, eotExpected, flush)
    decreases i
  {
    if i == 0 {
      assert polls[..0] == [];
    } else {
      GoesOn(polls, i - 1, len, eotExpected, flush);
      WordsStep(polls, i - 1);
      assert !Ends(polls, i - 1, len, eotExpected, flush);
      assert WordsIn(polls[..i - 1]) + [] == WordsIn(polls[..i - 1]);
    }
  }

  /** Every dequeue, whatever the answers: it is decided by the first answer that ends it, has
      seen the words up to there, and says what that answer was. */
  lemma DequeueDecides(polls: seq<Poll>, e: nat, len: nat, eotExpected: bool, flush: bool)
    requires e < |polls| && Ends(polls, e, len, eotExpected, flush)
    requires forall j :: 0 <= j < e ==> !Ends(polls, j, len, eotExpected, flush)
    ensures var d, n := DequeueFrom(polls, 0, [], len, eotExpected, flush), |WordsIn(polls[..e + 1])|;
      && d.words == WordsIn(polls[..e + 1]) && d.polled == e + 1
      && (d.rc == ResetReceived <==> polls[e].ResetRequest?)
      && (d.rc == ParityError <==> polls[e].Parity?)
      && (d.rc == AccessFailure <==> polls[e].Failed? || polls[e] == Eot(false))
      && (d.rc == InsufficientData <==> polls[e] == Eot(true) && !flush && n < len)
      && (d.rc == ExcessData <==> polls[e] == Eot(true) && !flush && (n > len || (n == len && !eotExpected)))
      && d.rc != Waiting
  {
    GoesOn(polls, e, len, eotExpected, flush);
    WordsStep(polls, e);
    assert WordsIn(polls[..e]) + [] == WordsIn(polls[..e]);
  }

  /** With no answer that ends it, the dequeue waits, having seen all words. */
  lemma DequeueWaits(polls: seq<Poll>, len: nat, eotExpected: bool, flush: bool)
    requires forall j :: 0 <= j < |polls| ==> !Ends(polls, j, len, eotExpected, flush)
    ensures DequeueFrom(polls, 0, [], len, eotExpected, flush) == Dequeued(Waiting, WordsIn(polls), |polls|)
  {
    GoesOn(polls, |polls|, len, eotExpected, flush);
    assert polls[..|polls|] == polls;
  }

  /** A dequeue that expects the end of transmission succeeds exactly when the requested
      number of words comes before it, and otherwise says on which side it missed. */
  lemma EotDecides(polls: seq<Poll>, e: nat, len: nat)
    requires e < |polls| && Clean(polls[..e]) && polls[e] == Eot(true)
    ensures var d, n := DequeueFrom(polls, 0, [], len, true, false), |WordsIn(polls[..e])|;
      && d.words == WordsIn(polls[..e]) && d.polled == e + 1
      && (d.rc == Success <==> n == len)
      && (d.rc == InsufficientData <==> n < len)
      && (d.rc == ExcessData <==> n > len)
  {
    CleanPrefix(polls, e, len, true);
  }

  /** A dequeue that does not wait for the end of transmission, as the receiver's header
      read, stops at the last requested word, and reports a shortage when the
      transmission ends before it. It never reports an excess. */
  lemma CountDecides(polls: seq<Poll>, e: nat, len: nat)
    requires e < |polls| && Clean(polls[..e]) && |WordsIn(polls[..e])| < len
    ensures var d := DequeueFrom(polls, 0, [], len, false, false);
      && (polls[e] == Eot(true) ==> d == Dequeued(InsufficientData, WordsIn(polls[..e]), e + 1))
      && (polls[e].Word? && |WordsIn(polls[..e])| == len - 1 ==> d == Dequeued(Success, WordsIn(polls[..e + 1]), e + 1))
  {
    CleanPrefix(polls, e, len, false);
    WordsStep(polls, e);
  }

  // ----- downstream

  /** One look at the downstream FIFO before a word, and the fate of the write. */
  datatype Slot = StatusFailed | ResetAsked | Full | Ready(enqueued: bool)

  /** What an enqueue came to: the words sent, and the looks taken at the FIFO so far. */
  datatype Enqueued = Enqueued(rc: Rc, count: nat, taken: nat)

  /** The enqueue of `len` words from the `i`th look on, `count` having been sent. The loop
      tests its condition after the body. */
  function EnqueueFrom(slots: seq<Slot>, i: nat, count: nat, len: nat): (e: Enqueued)
    requires i <= |slots|
    ensures i <= e.taken <= |slots|
    decreases |slots| - i
  {
    if i == |slots| then Enqueued(Waiting, count, i)
    else match slots[i]
      case StatusFailed => Enqueued(AccessFailure, count, i + 1)
      case ResetAsked => Enqueued(ResetReceived, count, i + 1)
      case Full =>
        if count < len then EnqueueFrom(slots, i + 1, count, len) else Enqueued(Success, count, i + 1)
      case Ready(enqueued) =>
        if !enqueued then Enqueued(AccessFailure, count, i + 1)
        else if count + 1 < len then EnqueueFrom(slots, i + 1, count + 1, len)
        else Enqueued(Success, count + 1, i + 1)
  }

  /** A successful enqueue sends what was asked for, if anything was. */
  lemma {:induction false} EnqueueCounts(slots: seq<Slot>, i: nat, count: nat, len: nat)
    requires i <= |slots| && count < len
    ensures var e := EnqueueFrom(slots, i, count, len); e.rc == Success ==> e.count == len
    decreases |slots| - i
  {
    if i < |slots| {
      if slots[i].Full? {
        EnqueueCounts(slots, i + 1, count, len);
      } else if slots[i] == Ready(true) && count + 1 < len {
        EnqueueCounts(slots, i + 1, count + 1, len);
      }
    }
  }

  /** The words written in the looks from `i` on. */
  function WrittenIn(slots: seq<Slot>, i: nat, e: nat): nat
    requires i <= e <= |slots|
  {
    if e == i then 0 else WrittenIn(slots, i, e - 1) + if slots[e - 1] == Ready(true) then 1 else 0
  }

  /** The look ends the enqueue: it fails, or no more words are left after it. */
  ghost predicate EndsAt(slots: seq<Slot>, i: nat, e: nat, len: nat)
    requires i <= e < |slots|
  {
    slots[e].Full? || slots[e] == Ready(true) ==> WrittenIn(slots, i, e + 1) >= len
  }

  lemma {:induction false} EnqueueGoesOn(slots: seq<Slot>, i: nat, e: nat, len: nat)
    requires i <= e <= |slots| && forall j :: i <= j < e ==> !EndsAt(slots, i, j, len)
    ensures EnqueueFrom(slots, i, 0, len) == EnqueueFrom(slots, e, WrittenIn(slots, i, e), len)
    decreases e
  {
    if e > i {
      EnqueueGoesOn(slots, i, e - 1, len);
      assert !EndsAt(slots, i, e - 1, len);
    }
  }

  /** Every enqueue, whatever the looks: it is decided by the first look that ends it, and has
      sent a word for each look before that found room. */
  lemma EnqueueDecides(slots: seq<Slot>, i: nat, e: nat, len: nat)
    requires i <= e < |slots| && EndsAt(slots, i, e, len) && forall j :: i <= j < e ==> !EndsAt(slots, i, j, len)
    ensures var r := EnqueueFrom(slots, i, 0, len);
      && r.count == WrittenIn(slots, i, e + 1) && r.taken == e + 1
      && (r.rc == AccessFailure <==> slots[e].StatusFailed? || slots[e] == Ready(false))
      && (r.rc == ResetReceived <==> slots[e].ResetAsked?)
      && (r.rc == Success <==> slots[e].Full? || slots[e] == Ready(true))
  {
    EnqueueGoesOn(slots, i, e, len);
  }

  /** Asked for nothing it takes one look: a full FIFO gets nothing, one with room a word. */
  lemma NoneAsked(slots: seq<Slot>, i: nat)
    requires i <= |slots|
    ensures var e := EnqueueFrom(slots, i, 0, 0);
      && (e.rc == Success <==> i < |slots| && (slots[i].Full? || slots[i] == Ready(true)))
      && (e.rc == Success ==> e.taken == i + 1 && (e.count == 1 <==> slots[i].Ready?) && (e.count == 0 <==> slots[i].Full?))
  {
  }

  class DownFifo {
    const slots: seq<Slot>
    var taken: nat
    var sent: seq<u32>

    ghost predicate Valid()
      reads this
    {
      taken <= |slots|
    }

    constructor (slots: seq<Slot>)
      ensures Valid() && this.slots == slots && sent == [] && taken == 0
    {
      this.slots, taken, sent := slots, 0, [];
    }

    /** `sbeDownFifoEnq_mult`: waits for room before each word. */
    method EnqMult(data: seq<u32>, len: nat) returns (rc: Rc, count: nat)
      requires Valid() && len <= |data| && data != []
      modifies this
      ensures Valid() && count <= |data| && sent == old(sent) + data[..count]
      ensures Enqueued(rc, count, taken) == EnqueueFrom(slots, old(taken), 0, len)
      ensures rc == Success && len > 0 ==> count == len
      ensures rc == Success && len == 0 ==> old(taken) < |slots| && count == if slots[old(taken)].Ready? then 1 else 0
    {
      rc, count := Success, 0;
      while true
        invariant Valid() && rc == Success && count <= |data|
        invariant count < len || (len == 0 && count == 0)
        invariant sent == old(sent) + data[..count] && (len == 0 ==> taken == old(taken))
        invariant EnqueueFrom(slots, taken, count, len) == EnqueueFrom(slots, old(taken), 0, len)
        decreases |slots| - taken
      {
        if taken == |slots| {
          rc := Waiting;
          break;
        }
        var slot := slots[taken];
        taken := taken + 1;
        if slot.StatusFailed? {
          rc := AccessFailure;
          break;
        }
        if slot.ResetAsked? {
          rc := ResetReceived;
          break;
        }
        if slot.Ready? {
          if !slot.enqueued {
            rc := AccessFailure;
            break;
          }
          sent := sent + [data[count]];
          count := count + 1;
        }
        if !(count < len) {
          break;
        }
      }
    }
  }
}
