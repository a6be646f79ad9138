/** The return codes of the security list dump. Every transfer answers with success or
    failure; the model takes those answers, numbered in the order of the transfers, and says
    what the dump reports for them. */
module SecurityCodes {
  type Answers = nat -> bool

  ghost predicate AllOk(answers: Answers, from: nat, n: nat) {
    forall i :: from <= i < from + n ==> answers(i)
  }

  /** The transfers a loop of `n` makes from `from` on: it stops at the first failure. */
  function Made(answers: Answers, from: nat, n: nat): (r: nat)
    ensures r <= n
    decreases n
  {
    if n == 0 then 0 else if !answers(from) then 1 else 1 + Made(answers, from + 1, n - 1)
  }

  /** Of the transfers made only the last one can have failed. */
  lemma {:induction false} MadeUpToFailure(answers: Answers, from: nat, n: nat)
    ensures var m := Made(answers, from, n);
      && (AllOk(answers, from, n) ==> m == n)
      && (!AllOk(answers, from, n) ==> m > 0 && !answers(from + m - 1) && AllOk(answers, from, m - 1))
    decreases n
  {
    if n > 0 && answers(from) {
      MadeUpToFailure(answers, from + 1, n - 1);
    }
  }

  lemma {:induction false} MadeSoFar(answers: Answers, from: nat, done: nat, n: nat)
    requires done < n && AllOk(answers, from, done)
    ensures !answers(from + done) ==> Made(answers, from, n) == done + 1 && !AllOk(answers, from, n)
    decreases n
  {
    if done > 0 {
      assert answers(from);
      MadeSoFar(answers, from + 1, done - 1, n - 1);
    }
  }

  /** A loop over `n` records of `fields` transfers each; after a failure it is left and the
      code stays. With no records the code before it stays. */
  method SendRecords(n: nat, fields: nat, answers: Answers, from: nat, before: bool) returns (ok: bool, next: nat)
    requires fields > 0
    ensures next == from + Made(answers, from, n * fields)
    ensures ok <==> if n == 0 then before else AllOk(answers, from, n * fields)
  {
    ok, next := before, from;
    var i := 0;
    while i < n
      invariant i <= n && next == from + i * fields && AllOk(answers, from, i * fields)
      invariant ok == (i > 0 || before)
    {
      Multiples(i, n, fields);
      var j := 0;
      while j < fields
        invariant j <= fields && next == from + i * fields + j && AllOk(answers, from, i * fields + j)
        invariant j > 0 ==> ok
      {
        ok := answers(next);
        next := next + 1;
        if !ok {
          MadeSoFar(answers, from, i * fields + j, n * fields);
          return;
        }
        j := j + 1;
      }
      i := i + 1;
    }
    MadeUpToFailure(answers, from, n * fields);
  }

  lemma {:induction false} Multiples(i: nat, n: nat, fields: nat)
    requires i < n
    ensures (i + 1) * fields == i * fields + fields <= n * fields
    decreases n
  {
    if i + 1 < n {
      Multiples(i, n - 1, fields);
    }
    assert n * fields == (n - 1) * fields + fields;
  }

  /** Where the three loops of one list begin and end. */
  datatype Course = Course(second: nat, third: nat, end: nat)

  function CourseOf(n1: nat, n2: nat, n3: nat, answers: Answers, from: nat): Course {
    var second := from + Made(answers, from, n1 * 3);
    var third := second + Made(answers, second, n2 * 2);
    Course(second, third, third + Made(answers, third, n3))
  }

  /** The code of the last loop with anything to send decides. */
  ghost predicate Reports(n1: nat, n2: nat, n3: nat, answers: Answers, from: nat) {
    var c := CourseOf(n1, n2, n3, answers, from);
    if n3 > 0 then AllOk(answers, c.third, n3)
    else if n2 > 0 then AllOk(answers, c.second, n2 * 2)
    else AllOk(answers, from, n1 * 3)
  }

  /** `sbeSecurityWhiteBlackListDump`: a failure leaves only the loop it happens in, and the
      code of a later loop replaces its code. */
  method ListDump(n1: nat, n2: nat, n3: nat, answers: Answers, from: nat) returns (ok: bool, next: nat)
    ensures next == CourseOf(n1, n2, n3, answers, from).end
    ensures ok <==> Reports(n1, n2, n3, answers, from)
  {
    ok, next := SendRecords(n1, 3, answers, from, true);
    ok, next := SendRecords(n2, 2, answers, next, ok);
    ok, next := SendRecords(n3, 1, answers, next, ok);
  }

  /** Every transfer that was made succeeded. */
  ghost predicate Clean(n1: nat, n2: nat, n3: nat, answers: Answers, from: nat) {
    AllOk(answers, from, CourseOf(n1, n2, n3, answers, from).end - from)
  }

  lemma MadeClean(answers: Answers, from: nat, n: nat)
    ensures AllOk(answers, from, Made(answers, from, n)) <==> AllOk(answers, from, n)
  {
    MadeUpToFailure(answers, from, n);
  }

  lemma Joint(answers: Answers, from: nat, m: nat, n: nat)
    ensures AllOk(answers, from, m + n) <==> AllOk(answers, from, m) && AllOk(answers, from + m, n)
  {
  }

  /** No transfer failed exactly when each loop ran through. */
  lemma CleanIsAllLoops(n1: nat, n2: nat, n3: nat, answers: Answers, from: nat)
    ensures var c := CourseOf(n1, n2, n3, answers, from);
      Clean(n1, n2, n3, answers, from)
      <==> AllOk(answers, from, n1 * 3) && AllOk(answers, c.second, n2 * 2) && AllOk(answers, c.third, n3)
  {
    var c := CourseOf(n1, n2, n3, answers, from);
    MadeClean(answers, from, n1 * 3);
    MadeClean(answers, c.second, n2 * 2);
    MadeClean(answers, c.third, n3);
    Joint(answers, from, c.second - from, c.third - c.second);
    Joint(answers, from, c.third - from, c.end - c.third);
  }

  /** Success is reported over a failed transfer exactly when the last loop with anything to
      send ran through and an earlier one did not. */
  lemma FailureHidden(n1: nat, n2: nat, n3: nat, answers: Answers, from: nat)
    ensures var c := CourseOf(n1, n2, n3, answers, from);
      Reports(n1, n2, n3, answers, from) && !Clean(n1, n2, n3, answers, from)
      <==>
        || (n3 > 0 && AllOk(answers, c.third, n3) && !(AllOk(answers, from, n1 * 3) && AllOk(answers, c.second, n2 * 2)))
        || (n3 == 0 && n2 > 0 && AllOk(answers, c.second, n2 * 2) && !AllOk(answers, from, n1 * 3))
  {
    CleanIsAllLoops(n1, n2, n3, answers, from);
  }

  /** One record in each table and a failure of the very first transfer: success. */
  lemma FirstFailureHidden()
    ensures Reports(1, 1, 1, i => i > 0, 0) && !Clean(1, 1, 1, i => i > 0, 0)
  {
    var answers: Answers := i => i > 0;
    assert Made(answers, 0, 3) == 1;
    FailureHidden(1, 1, 1, answers, 0);
    assert !answers(0);
  }

  // ----- the whole dump

  datatype Sizes = Sizes(w1: nat, w2: nat, w3: nat, b1: nat, b2: nat, b3: nat, g: nat)

  /** Where the parts of the dump begin. */
  datatype Plan = Plan(black: nat, grey: nat, last: nat)

  function PlanOf(s: Sizes, answers: Answers): Plan {
    var black := CourseOf(s.w1, s.w2, s.w3, answers, 1).end;
    var grey := CourseOf(s.b1, s.b2, s.b3, answers, black).end;
    Plan(black, grey, grey + Made(answers, grey, s.g * 2))
  }

  ghost predicate ListsReport(s: Sizes, answers: Answers) {
    Reports(s.w1, s.w2, s.w3, answers, 1) && Reports(s.b1, s.b2, s.b3, answers, PlanOf(s, answers).black)
  }

  method TwoListsDump(s: Sizes, answers: Answers) returns (ok: bool, next: nat)
    ensures ok <==> ListsReport(s, answers)
    ensures ok ==> next == PlanOf(s, answers).grey
  {
    ok, next := ListDump(s.w1, s.w2, s.w3, answers, 1);
    if ok {
      ok, next := ListDump(s.b1, s.b2, s.b3, answers, next);
    }
  }

  /** The header, the two lists as they report it, the grey list and the closing byte are
      through. */
  ghost predicate DumpReports(s: Sizes, answers: Answers) {
    var p := PlanOf(s, answers);
    answers(0) && ListsReport(s, answers) && AllOk(answers, p.grey, s.g * 2) && answers(p.last)
  }

  /** `sendSecurityListDumpToHB` */
  method Dump(s: Sizes, answers: Answers) returns (ok: bool)
    ensures ok <==> DumpReports(s, answers)
  {
    ok := answers(0);
    if !ok {
      return;
    }
    var next;
    ok, next := TwoListsDump(s, answers);
    if !ok {
      return;
    }
    ghost var grey := next;
    ok, next := SendRecords(s.g, 2, answers, next, true);
    MadeUpToFailure(answers, grey, s.g * 2);
    if ok {
      ok := answers(next);
    }
  }

  /** The whole dump reports success over a failed transfer exactly when one of the two lists
      hides one. */
  lemma DumpHides(s: Sizes, answers: Answers)
    requires DumpReports(s, answers)
    ensures var p := PlanOf(s, answers);
      AllOk(answers, 0, p.last + 1) <==> Clean(s.w1, s.w2, s.w3, answers, 1) && Clean(s.b1, s.b2, s.b3, answers, p.black)
  {
    var p := PlanOf(s, answers);
    Joint(answers, 0, 1, p.black - 1);
    Joint(answers, 0, p.black, p.grey - p.black);
    MadeClean(answers, p.grey, s.g * 2);
    Joint(answers, 0, p.grey, p.last - p.grey);
    Joint(answers, 0, p.last, 1);
  }
}
