/** What the refusal budget guarantees over whole runs. */
module BudgetLaws {
  import opened CText
  import opened Budget

  /** The two operations `serve` performs, with the clock reading each took
      (service/fhsm_service.c:1549-1554, 1668-1670). */
  datatype Op = Check(s: Subject, now: int) | Refuse(s: Subject, now: int)

  function After(slots: Slots, op: Op): Slots {
    match op case Check(_, _) => slots case Refuse(s, now) => Charged(slots, s, now)
  }

  // ------------------------------------------------------ the delay always ends

  function AfterAll(slots: Slots, ops: seq<Op>): Slots
    decreases |ops|
  {
    if ops == [] then slots else AfterAll(After(slots, ops[0]), ops[1..])
  }

  /** Nothing in the run charges `x`. */
  predicate Spares(ops: seq<Op>, x: Subject) {
    forall i :: 0 <= i < |ops| && ops[i].Refuse? ==> ops[i].s != x
  }

  lemma {:induction false} SparedEntry(slots: Slots, ops: seq<Op>, x: Subject)
    requires Unique(slots) && Spares(ops, x)
    ensures EntryOf(AfterAll(slots, ops), x).None? || EntryOf(AfterAll(slots, ops), x) == EntryOf(slots, x)
    decreases |ops|
  {
    hide EntryOf, Charged, Unique;
    if ops != [] {
      if ops[0].Refuse? {
        ChargeEffect(slots, ops[0].s, ops[0].now, x);
      }
      assert forall i :: 0 <= i < |ops[1..]| ==> ops[1..][i] == ops[i + 1];
      SparedEntry(After(slots, ops[0]), ops[1..], x);
    }
  }

  /** Sixty seconds after its last charge an identity is let through, however
      often it, or anybody else, asks or is refused meanwhile. */
  lemma DelayEnds(slots: Slots, x: Subject, charged: int, ops: seq<Op>, now: int)
    requires Unique(slots) && Slot(slots, x, charged) >= 0 && Spares(ops, x)
    requires now >= charged + 60
    ensures Owed(AfterAll(Charged(slots, x, charged), ops), x, now) == 0
  {
    hide Find, Charged, Slot;
    ChargeEffect(slots, x, charged, x);
    SparedEntry(Charged(slots, x, charged), ops, x);
  }

  // ------------------------------------------------------------- escalation

  /** How often a run charges `x`, and when it last did, if not at `before`. */
  function Charges(ops: seq<Op>, x: Subject): nat {
    if ops == [] then 0 else (if ops[0] == Refuse(x, ops[0].now) then 1 else 0) + Charges(ops[1..], x)
  }

  function LastCharge(ops: seq<Op>, x: Subject, before: int): int {
    if ops == [] then before
    else LastCharge(ops[1..], x, if ops[0] == Refuse(x, ops[0].now) then ops[0].now else before)
  }

  /** The clock does not go back, and stays within `from` and `until`. */
  predicate Timely(ops: seq<Op>, from: int, until: int)
    decreases |ops|
  {
    ops == [] || (from <= ops[0].now < until && Timely(ops[1..], ops[0].now, until))
  }

  lemma {:induction false} CountsUp(slots: Slots, x: Subject, ops: seq<Op>, n: nat, first: int, last: int, from: int)
    requires Unique(slots) && n >= 1 && EntryOf(slots, x) == Some(Entry(x, n, last, n > FREE))
    requires first <= last <= from && Timely(ops, from, first + DECAY_S)
    ensures var m := n + Charges(ops, x);
            EntryOf(AfterAll(slots, ops), x) == Some(Entry(x, m, LastCharge(ops, x, last), m > FREE))
    ensures last <= LastCharge(ops, x, last)
    decreases |ops|
  {
    hide EntryOf, Charged, Unique, Slot, Find;
    if ops != [] {
      var op := ops[0];
      var e := Entry(x, n, last, n > FREE);
      assert Decayed(e, op.now) == n by { StandsTenMinutes(e, op.now); }
      if op.Refuse? {
        ChargeEffect(slots, op.s, op.now, x);
      }
      if op.Refuse? && op.s == x {
        assert Slot(slots, x, op.now) >= 0 by { KnownHasSlot(slots, x, op.now); }
        CountsUp(After(slots, op), x, ops[1..], n + 1, first, op.now, op.now);
      } else {
        CountsUp(After(slots, op), x, ops[1..], n, first, last, op.now);
      }
    }
  }

  lemma StandsTenMinutes(e: Entry, now: int)
    requires e.last <= now < e.last + DECAY_S
    ensures Decayed(e, now) == e.count
  {
    assert (now - e.last) / DECAY_S == 0;
  }

  lemma KnownHasSlot(slots: Slots, x: Subject, now: int)
    requires EntryOf(slots, x).Some?
    ensures Slot(slots, x, now) >= 0
  {
  }

  /** An identity refused n times within ten minutes, whoever else is checked or
      refused meanwhile, owes the n-th step of the ladder less the time since its
      last refusal, and its crossing into delay stands announced from the fifth on. */
  lemma OwesTheLadder(slots: Slots, x: Subject, first: int, ops: seq<Op>, now: int)
    requires Unique(slots) && EntryOf(slots, x).None? && Slot(slots, x, first) >= 0
    requires Timely(ops, first, first + 600)
    requires LastCharge(ops, x, first) <= now < first + 600
    ensures var after, n := AfterAll(Charged(slots, x, first), ops), 1 + Charges(ops, x);
            var last := LastCharge(ops, x, first);
            var step := if n < 11 then LADDER[n] else 60;
            && Owed(after, x, now) == (if step > now - last then step - (now - last) else 0)
            && EntryOf(after, x).Some? && EntryOf(after, x).value.count == n
            && (EntryOf(after, x).value.announced <==> n > 4)
  {
    hide EntryOf, Charged, Unique, Slot, Delay;
    ChargeEffect(slots, x, first, x);
    CountsUp(Charged(slots, x, first), x, ops, 1, first, first, first);
    var e := EntryOf(AfterAll(Charged(slots, x, first), ops), x).value;
    StandsTenMinutes(e, now);
    DelayLadder(e.count);
  }

  // ------------------------------------------------------------- restart

  function RecordedCount(rs: seq<Record>, x: Subject): nat {
    if rs == [] then 0 else if rs[0].subject == x then rs[0].count else RecordedCount(rs[1..], x)
  }

  predicate UniqueRecords(rs: seq<Record>) {
    forall i, j :: 0 <= i < |rs| && 0 <= j < |rs| && rs[i].subject == rs[j].subject ==> i == j
  }

  predicate Positive(rs: seq<Record>) { forall i :: 0 <= i < |rs| ==> rs[i].count > 0 }

  function RecordOf(e: Entry): Record { Record(e.count, e.subject) }

  lemma {:induction false} RecordsComeFrom(slots: Slots, i: nat)
    requires i < |Records(slots)|
    ensures exists j :: 0 <= j < |slots| && slots[j].Some? && Records(slots)[i] == RecordOf(slots[j].value)
    ensures |Records(slots)| <= |slots| && Records(slots)[i].count > 0
  {
    var first := |Records(slots)| - |Records(slots[1..])|;
    if i >= first {
      RecordsComeFrom(slots[1..], i - first);
      var j :| 0 <= j < |slots[1..]| && slots[1..][j].Some? && Records(slots)[i] == RecordOf(slots[1..][j].value);
      assert slots[j + 1] == slots[1..][j];
    } else {
      RecordsLength(slots[1..]);
      assert Records(slots)[i] == RecordOf(slots[0].value);
    }
  }

  lemma {:induction false} RecordsLength(slots: Slots)
    ensures |Records(slots)| <= |slots|
  {
    if slots != [] {
      RecordsLength(slots[1..]);
    }
  }

  lemma UniqueTail(slots: Slots)
    requires Unique(slots) && slots != []
    ensures Unique(slots[1..])
  {
    assert forall i :: 0 <= i < |slots[1..]| ==> slots[1..][i] == slots[i + 1];
  }

  lemma {:induction false} RecordsUnique(slots: Slots)
    requires Unique(slots)
    ensures UniqueRecords(Records(slots)) && Positive(Records(slots))
  {
    if slots != [] {
      UniqueTail(slots);
      RecordsUnique(slots[1..]);
      var tail, all := Records(slots[1..]), Records(slots);
      forall i | 0 <= i < |tail|
        ensures slots[0].Some? ==> tail[i].subject != slots[0].value.subject
      {
        RecordsComeFrom(slots[1..], i);
        var j :| 0 <= j < |slots[1..]| && slots[1..][j].Some? && slots[1..][j].value.subject == tail[i].subject;
        assert slots[j + 1] == slots[1..][j];
      }
      if |all| > |tail| {
        assert forall i :: 1 <= i < |all| ==> all[i] == tail[i - 1];
      }
    }
  }

  lemma {:induction false} FindFrom(slots: Slots, x: Subject, from: nat)
    requires from < |slots|
    ensures Find(slots[1..], x, from) == if Find(slots, x, from + 1) < 0 then -1 else Find(slots, x, from + 1) - 1
    decreases |slots| - from
  {
    if from + 1 < |slots| {
      assert slots[1..][from] == slots[from + 1];
      FindFrom(slots, x, from + 1);
    }
  }

  lemma CountOfStep(slots: Slots, x: Subject)
    requires slots != []
    ensures CountOf(slots, x) == if Holds(slots[0], x) then slots[0].value.count else CountOf(slots[1..], x)
  {
    FindFrom(slots, x, 0);
  }

  /** What a save records of an identity is its count. */
  lemma {:induction false} RecordsCount(slots: Slots, x: Subject)
    requires Unique(slots)
    ensures RecordedCount(Records(slots), x) == CountOf(slots, x)
  {
    if slots != [] {
      UniqueTail(slots);
      RecordsCount(slots[1..], x);
      CountOfStep(slots, x);
      var tail := Records(slots[1..]);
      if slots[0].Some? && slots[0].value.count > 0 {
        assert Records(slots)[1..] == tail;
      } else {
        assert Records(slots) == tail;
        if Holds(slots[0], x) {
          assert forall i :: 0 <= i < |slots[1..]| ==> slots[1..][i] == slots[i + 1] && !Holds(slots[i + 1], x);
          assert CountOf(slots[1..], x) == 0;
        }
      }
    }
  }

  lemma {:induction false} RecordedAt(rs: seq<Record>, x: Subject, i: nat)
    requires UniqueRecords(rs) && i < |rs| && rs[i].subject == x
    ensures RecordedCount(rs, x) == rs[i].count
  {
    if i > 0 {
      assert rs[0].subject != x;
      assert forall j :: 0 <= j < |rs[1..]| ==> rs[1..][j] == rs[j + 1];
      RecordedAt(rs[1..], x, i - 1);
    }
  }

  lemma {:induction false} RecordedNowhere(rs: seq<Record>, x: Subject)
    requires forall i :: 0 <= i < |rs| ==> rs[i].subject != x
    ensures RecordedCount(rs, x) == 0
  {
    if rs != [] {
      RecordedNowhere(rs[1..], x);
    }
  }

  /** What loading puts back is the recorded count, its decay clock starting now. */
  lemma PlacedEntry(rs: seq<Record>, now: int, x: Subject)
    requires UniqueRecords(rs) && Positive(rs) && |rs| <= MAX
    ensures Unique(Placed(rs, now))
    ensures EntryOf(Placed(rs, now), x) ==
            if RecordedCount(rs, x) > 0 then Some(Entry(x, RecordedCount(rs, x), now, false)) else None
  {
    var slots := Placed(rs, now);
    var i := Find(slots, x);
    if i >= 0 {
      RecordedAt(rs, x, i);
    } else {
      forall j | 0 <= j < |rs|
        ensures rs[j].subject != x
      {
        assert !Holds(slots[j], x);
      }
      RecordedNowhere(rs, x);
    }
  }

  /** A process and its file, over several lifetimes: operations whose saves
      succeed, and crashes followed by a reload. */
  datatype Proc = Proc(slots: Slots, saved: seq<Record>)

  datatype Act = Do(op: Op) | Restart(now: int)

  function Reload(saved: seq<Record>, now: int): Slots { Placed(Parsed(Chunks(FileText(saved), LINE_CAP)), now) }

  function Act1(p: Proc, a: Act): Proc {
    match a
    case Do(op) =>
      var slots := After(p.slots, op);
      var saves := op.Refuse? && Slot(p.slots, op.s, op.now) >= 0 && CountOf(slots, op.s) > FREE;
      Proc(slots, if saves then Records(slots) else p.saved)
    case Restart(now) => Proc(Reload(p.saved, now), p.saved)
  }

  function ActAll(p: Proc, acts: seq<Act>): Proc
    decreases |acts|
  {
    if acts == [] then p else ActAll(Act1(p, acts[0]), acts[1..])
  }

  /** At each restart the file holds only what the loader takes back. */
  predicate Readable(p: Proc, acts: seq<Act>)
    decreases |acts|
  {
    GoodRecords(p.saved) && (acts == [] || Readable(Act1(p, acts[0]), acts[1..]))
  }

  /** Every count past the free allowance is in the file. */
  ghost predicate ProcInv(p: Proc) {
    && |p.slots| == MAX && Unique(p.slots)
    && |p.saved| <= MAX && UniqueRecords(p.saved) && Positive(p.saved)
    && forall x :: CountOf(p.slots, x) > FREE ==> RecordedCount(p.saved, x) == CountOf(p.slots, x)
  }

  lemma ReloadIs(saved: seq<Record>, now: int)
    requires GoodRecords(saved)
    ensures Reload(saved, now) == Placed(saved, now)
  {
    FileReadsBack(saved);
  }

  lemma RestartKeeps(p: Proc, now: int)
    requires ProcInv(p) && GoodRecords(p.saved)
    ensures ProcInv(Act1(p, Restart(now)))
  {
    hide Records, RecordedCount, Find, Reload, Placed;
    ReloadIs(p.saved, now);
    PlacedEntry(p.saved, now, "");
    forall x
      ensures CountOf(Placed(p.saved, now), x) == RecordedCount(p.saved, x)
    {
      PlacedEntry(p.saved, now, x);
    }
  }

  lemma ChargeCount(slots: Slots, s: Subject, now: int, x: Subject)
    requires Unique(slots)
    ensures Slot(slots, s, now) < 0 ==> Charged(slots, s, now) == slots
    ensures x != s ==>
              var n := CountOf(Charged(slots, s, now), x); n == CountOf(slots, x) || n == 0
  {
    hide Find, Unique;
    ChargeEffect(slots, s, now, x);
  }

  lemma DoKeeps(p: Proc, op: Op)
    requires ProcInv(p)
    ensures ProcInv(Act1(p, Do(op)))
  {
    hide Records, RecordedCount, CountOf, Charged, Unique, UniqueRecords, Positive;
    if op.Refuse? {
      var p' := Act1(p, Do(op));
      ChargeEffect(p.slots, op.s, op.now, op.s);
      RecordsUnique(p'.slots);
      RecordsLength(p'.slots);
      forall x | CountOf(p'.slots, x) > FREE
        ensures RecordedCount(p'.saved, x) == CountOf(p'.slots, x)
      {
        RecordsCount(p'.slots, x);
        ChargeCount(p.slots, op.s, op.now, x);
      }
    }
  }

  lemma {:induction false} ProcRun(p: Proc, acts: seq<Act>)
    requires ProcInv(p) && Readable(p, acts)
    ensures ProcInv(ActAll(p, acts)) && GoodRecords(ActAll(p, acts).saved)
    decreases |acts|
  {
    hide ProcInv, Act1, GoodRecords;
    if acts != [] {
      match acts[0] {
        case Do(op) => DoKeeps(p, op);
        case Restart(now) => RestartKeeps(p, now);
      }
      ProcRun(Act1(p, acts[0]), acts[1..]);
    }
  }

  function Start(): Proc { Proc(Placed([], 0), []) }

  lemma StartInv()
    ensures ProcInv(Start())
  {
    forall x
      ensures CountOf(Start().slots, x) == 0
    {
      assert Find(Start().slots, x) == -1;
    }
  }

  /** Everything recorded is an identity a request can name, counted at most `k` times. */
  predicate Sound(p: Proc, k: nat) {
    && (forall i :: 0 <= i < |p.slots| && p.slots[i].Some? ==>
          GoodSubject(p.slots[i].value.subject) && p.slots[i].value.count <= k)
    && (forall i :: 0 <= i < |p.saved| ==> GoodSubject(p.saved[i].subject) && 0 < p.saved[i].count <= k)
  }

  predicate GoodSubjects(acts: seq<Act>) {
    forall i :: 0 <= i < |acts| && acts[i].Do? ==> GoodSubject(acts[i].op.s)
  }

  lemma SoundDo(p: Proc, op: Op, k: nat)
    requires Sound(p, k) && GoodSubject(op.s)
    ensures Sound(Act1(p, Do(op)), k + 1)
  {
    hide Find, Spare, GoodSubject, CountOf, Records;
    var p' := Act1(p, Do(op));
    assert forall i :: 0 <= i < |p'.slots| && p'.slots[i].Some? ==>
             GoodSubject(p'.slots[i].value.subject) && p'.slots[i].value.count <= k + 1;
    forall i | 0 <= i < |Records(p'.slots)|
      ensures GoodSubject(Records(p'.slots)[i].subject) && 0 < Records(p'.slots)[i].count <= k + 1
    {
      RecordsComeFrom(p'.slots, i);
    }
  }

  lemma SoundRestart(p: Proc, now: int, k: nat)
    requires Sound(p, k) && k < U32
    ensures Sound(Act1(p, Restart(now)), k + 1)
  {
    hide GoodSubject, Reload;
    ReloadIs(p.saved, now);
  }

  lemma {:induction false} SoundIsReadable(p: Proc, acts: seq<Act>, k: nat)
    requires Sound(p, k) && k + |acts| < U32 && GoodSubjects(acts)
    ensures Readable(p, acts)
    decreases |acts|
  {
    hide Act1, GoodSubject;
    if acts != [] {
      match acts[0] {
        case Do(op) => SoundDo(p, op, k);
        case Restart(now) => SoundRestart(p, now, k);
      }
      assert forall i :: 0 <= i < |acts[1..]| ==> acts[1..][i] == acts[i + 1];
      SoundIsReadable(Act1(p, acts[0]), acts[1..], k + 1);
    }
  }

  /** Restart never helps. After any history of requests and restarts with
      successful saves, a crash and reload leaves every identity owing at least
      what it owed the moment before. */
  lemma RestartNeverHelps(acts: seq<Act>, x: Subject, now: int, reborn: int)
    requires GoodSubjects(acts) && |acts| < U32
    ensures var p := ActAll(Start(), acts);
            Owed(Reload(p.saved, reborn), x, reborn) >= Owed(p.slots, x, now)
  {
    hide Readable, ActAll, Find, Placed, Reload, RecordedCount, GoodRecords, GoodSubjects;
    StartInv();
    StartSound();
    SoundIsReadable(Start(), acts, 0);
    ProcRun(Start(), acts);
    var p := ActAll(Start(), acts);
    ReloadIs(p.saved, reborn);
    PlacedEntry(p.saved, reborn, x);
    OwedAtMost(p.slots, x, now);
  }

  lemma StartSound()
    ensures Sound(Start(), 0)
  {
  }

  lemma OwedAtMost(slots: Slots, x: Subject, now: int)
    ensures Owed(slots, x, now) <= Delay(CountOf(slots, x))
  {
    hide Find, Delay;
    var e := EntryOf(slots, x);
    if e.Some? {
      DelayGrows(Decayed(e.value, now), e.value.count);
    }
  }
}
