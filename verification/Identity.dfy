/** The identity a request carries, from the reader to the refusal budget
    (service/fhsm_service.c:1231-1242, 1549-1554, 1668-1670, 696-707). */
module Identity {
  import opened CText
  import opened HttpRequest
  import Budget
  import BudgetLaws

  predicate SubjectOk(f: Fields) {
    f.subject.Some? ==> Budget.GoodSubject(f.subject.value)
  }

  lemma HeaderValuePlain(line: string)
    requires Header(line).Ok?
    ensures forall c :: c in Header(line).value.1 ==> c as int >= 0x20
  {
    hide MemChr, TrimLeft, TrimRight;
  }

  lemma {:induction false} SubjectsStayOk(lines: seq<string>, count: nat, f: Fields)
    requires Headers(lines, count, f).Ok? && SubjectOk(f)
    ensures SubjectOk(Headers(lines, count, f).value)
    decreases |lines|
  {
    hide Header, LengthOf, SignatureLengthOf, Lower;
    if lines != [] {
      HeaderValuePlain(lines[0]);
      SubjectsStayOk(lines[1..], count + 1, HeaderStep(f, lines[0]).value);
    }
  }

  /** A subject the reader accepts survives a save and a reload unchanged: it has
      the bytes and the length the budget file can carry. */
  lemma AcceptedSubjectIsGood(stream: string)
    requires Parse(stream).Ok?
    ensures SubjectOk(Parse(stream).value.fields)
  {
    hide Lines, RequestLine, Headers, HeadEnd;
    var lines := Lines(stream[..HeadEnd(stream) + 2]);
    SubjectsStayOk(lines[1..], 0, NO_FIELDS);
  }

  /** The acts of a daemon that only ever sees identities out of accepted requests. */
  ghost predicate FromRequests(acts: seq<BudgetLaws.Act>) {
    forall i :: 0 <= i < |acts| && acts[i].Do? ==>
      exists stream :: Parse(stream).Ok? && Parse(stream).value.fields.subject == Some(acts[i].op.s)
  }

  /** So for every history of requests and restarts, whoever they name, a restart
      leaves nobody owing less. */
  lemma RestartNeverHelpsRequests(acts: seq<BudgetLaws.Act>, x: Budget.Subject, now: int, reborn: int)
    requires FromRequests(acts) && |acts| < Budget.U32
    ensures var p := BudgetLaws.ActAll(BudgetLaws.Start(), acts);
            Budget.Owed(BudgetLaws.Reload(p.saved, reborn), x, reborn) >= Budget.Owed(p.slots, x, now)
  {
    hide Parse;
    forall i | 0 <= i < |acts| && acts[i].Do?
      ensures Budget.GoodSubject(acts[i].op.s)
    {
      var stream :| Parse(stream).Ok? && Parse(stream).value.fields.subject == Some(acts[i].op.s);
      AcceptedSubjectIsGood(stream);
    }
    BudgetLaws.RestartNeverHelps(acts, x, now, reborn);
  }
}
