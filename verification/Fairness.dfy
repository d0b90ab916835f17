/** Per-identity concurrency (service/fhsm_service.c:373-588): how many requests
    each identity has in flight, and the cap while somebody else is present. */
module Fairness {
  import opened CText

  const IDENT_MAX: nat := 128
  const WINDOW_S: int := 30
  const COOLDOWN_S: int := 5

  type Subject = string

  datatype Entry = Entry(subject: Subject, inFlight: nat, lastSeen: nat,
                         limited: bool, suppressed: nat, limitedSince: nat, lastRefusal: nat)

  type Slots = seq<Option<Entry>>

  datatype Note = Note(logRefusal: bool, logResume: bool, suppressed: nat, windowS: int)

  const SILENT: Note := Note(false, false, 0, 0)

  predicate Holds(slot: Option<Entry>, s: Subject) { slot.Some? && slot.value.subject == s }

  /** In flight now, or served within the window. */
  predicate Present(e: Entry, now: nat) { e.inFlight > 0 || now - e.lastSeen < WINDOW_S }

  predicate Expired(slot: Option<Entry>, s: Subject, now: nat) {
    slot.Some? && slot.value.subject != s && !Present(slot.value, now)
  }

  predicate Reusable(slot: Option<Entry>, s: Subject, now: nat) { slot.None? || Expired(slot, s, now) }

  predicate Unique(slots: Slots) {
    forall i, j :: 0 <= i < |slots| && 0 <= j < |slots| && slots[i].Some? && slots[j].Some? ==>
      slots[i].value.subject == slots[j].value.subject ==> i == j
  }

  /** The entry of `s`: the last match, as the scan leaves it. */
  function Find(slots: Slots, s: Subject, n: nat): (i: int)
    requires n <= |slots|
    ensures -1 <= i < n
    ensures i >= 0 ==> Holds(slots[i], s) && forall j :: i < j < n ==> !Holds(slots[j], s)
    ensures i == -1 ==> forall j :: 0 <= j < n ==> !Holds(slots[j], s)
  {
    if n == 0 then -1 else if Holds(slots[n - 1], s) then n - 1 else Find(slots, s, n - 1)
  }

  /** The slot a newcomer takes: an unused one that comes before any expired one,
      or else the expired entry seen longest ago. */
  function Spare(slots: Slots, s: Subject, now: nat, n: nat): (i: int)
    requires n <= |slots|
    ensures -1 <= i < n
    ensures i == -1 <==> forall j :: 0 <= j < n ==> !Reusable(slots[j], s, now)
    ensures i >= 0 ==> Reusable(slots[i], s, now)
    ensures i >= 0 && slots[i].Some? ==> forall j :: 0 <= j < n && Expired(slots[j], s, now) ==>
              slots[i].value.lastSeen <= slots[j].value.lastSeen
    ensures i >= 0 && slots[i].None? ==> forall j :: 0 <= j < i ==> !Reusable(slots[j], s, now)
  {
    if n == 0 then -1
    else
      var i := Spare(slots, s, now, n - 1);
      var slot := slots[n - 1];
      if slot.None? then (if i < 0 then n - 1 else i)
      else if !Expired(slot, s, now) then i
      else if i < 0 || (slots[i].Some? && slot.value.lastSeen < slots[i].value.lastSeen) then n - 1
      else i
  }

  predicate OthersPresent(slots: Slots, s: Subject, now: nat) {
    exists i :: 0 <= i < |slots| && slots[i].Some? && slots[i].value.subject != s && Present(slots[i].value, now)
  }

  function Cap(slots: Slots, s: Subject, workers: nat, now: nat): nat {
    if OthersPresent(slots, s, now) && workers > 1 then workers - 1 else workers
  }

  predicate Refuses(slots: Slots, s: Subject, workers: nat, now: nat) {
    var mine := Find(slots, s, |slots|);
    mine >= 0 && slots[mine].value.inFlight >= Cap(slots, s, workers, now)
  }

  /** The entry after a refusal: a burst is opened or lengthened, nothing else moves. */
  function Turned(e: Entry, now: nat): Entry {
    var e1 := if e.limited then e.(suppressed := e.suppressed + 1)
              else e.(limited := true, limitedSince := now, suppressed := 0);
    e1.(lastRefusal := now)
  }

  predicate Cooled(e: Entry, now: nat) { e.limited && now - e.lastRefusal >= COOLDOWN_S }

  function Admitted(e: Entry, now: nat): Entry {
    var e1 := if Cooled(e, now) then e.(limited := false, suppressed := 0) else e;
    e1.(inFlight := e.inFlight + 1)
  }

  function Newcomer(slot: Option<Entry>, s: Subject): Entry {
    Entry(s, 1, 0, false, 0, if slot.Some? then slot.value.limitedSince else 0, 0)
  }

  /** The table after `ident_enter`. */
  function Entered(slots: Slots, s: Subject, workers: nat, now: nat): (r: Slots)
    ensures |r| == |slots|
  {
    var mine := Find(slots, s, |slots|);
    var spare := Spare(slots, s, now, |slots|);
    if Refuses(slots, s, workers, now) then slots[mine := Some(Turned(slots[mine].value, now))]
    else if mine >= 0 then slots[mine := Some(Admitted(slots[mine].value, now))]
    else if spare >= 0 then slots[spare := Some(Newcomer(slots[spare], s))]
    else slots
  }

  /** The first entry of `s` with a request in flight. */
  function Leaving(slots: Slots, s: Subject, from: nat := 0): (i: int)
    ensures i == -1 || from <= i < |slots|
    ensures i >= 0 ==> Holds(slots[i], s) && slots[i].value.inFlight > 0
    ensures i == -1 ==> forall j :: from <= j < |slots| ==> !(Holds(slots[j], s) && slots[j].value.inFlight > 0)
    ensures i >= 0 ==> forall j :: from <= j < i ==> !(Holds(slots[j], s) && slots[j].value.inFlight > 0)
    decreases |slots| - from
  {
    if from >= |slots| then -1
    else if Holds(slots[from], s) && slots[from].value.inFlight > 0 then from
    else Leaving(slots, s, from + 1)
  }

  function Left(slots: Slots, s: Subject, served: bool, now: nat): (r: Slots)
    ensures |r| == |slots|
  {
    var i := Leaving(slots, s);
    if i < 0 then slots
    else
      var e := slots[i].value;
      slots[i := Some(e.(inFlight := e.inFlight - 1, lastSeen := if served then now else e.lastSeen))]
  }

  /** What the caller is told to log. */
  function NoteFor(slots: Slots, s: Subject, workers: nat, now: nat): Note {
    var mine := Find(slots, s, |slots|);
    if mine < 0 then SILENT
    else
      var e := slots[mine].value;
      if Refuses(slots, s, workers, now) then SILENT.(logRefusal := !e.limited)
      else if Cooled(e, now) then Note(false, true, e.suppressed, now - e.limitedSince)
      else SILENT
  }

  /** The one pass over the table that `ident_enter` makes. */
  method Scan(slots: Slots, subject: Subject, now: nat) returns (mine: int, spare: int, others: bool)
    ensures mine == Find(slots, subject, |slots|)
    ensures spare == Spare(slots, subject, now, |slots|)
    ensures others <==> OthersPresent(slots, subject, now)
  {
    mine, spare, others := -1, -1, false;
    var oldest := 0;
    for i := 0 to |slots|
      invariant mine == Find(slots, subject, i)
      invariant spare == Spare(slots, subject, now, i)
      invariant spare >= 0 ==> oldest == if slots[spare].Some? then slots[spare].value.lastSeen else 0
      invariant others <==> OthersPresent(slots[..i], subject, now)
    {
      OthersStep(slots, subject, now, i);
      if slots[i].None? {
        if spare < 0 {
          spare, oldest := i, 0;
        }
        continue;
      }
      var e := slots[i].value;
      var present := e.inFlight > 0 || now - e.lastSeen < WINDOW_S;
      if e.subject == subject {
        mine := i;
        continue;
      }
      if present {
        others := true;
      } else if e.inFlight == 0 {
        if spare < 0 || e.lastSeen < oldest {
          spare, oldest := i, e.lastSeen;
        }
      }
    }
    assert slots[..|slots|] == slots;
  }

  lemma OthersStep(slots: Slots, s: Subject, now: nat, i: nat)
    requires i < |slots|
    ensures OthersPresent(slots[..i + 1], s, now) <==>
            OthersPresent(slots[..i], s, now)
            || (slots[i].Some? && slots[i].value.subject != s && Present(slots[i].value, now))
  {
    assert slots[..i + 1] == slots[..i] + [slots[i]];
    if OthersPresent(slots[..i], s, now) {
      var front := slots[..i];
      var j :| 0 <= j < i && front[j].Some? && front[j].value.subject != s && Present(front[j].value, now);
      assert slots[..i + 1][j] == slots[..i][j];
    }
    if slots[i].Some? && slots[i].value.subject != s && Present(slots[i].value, now) {
      assert slots[..i + 1][i] == slots[i];
    }
  }

  /** What `ident_flush_bursts` writes: the counts of the bursts still open. */
  function FlushLines(slots: Slots): (lines: seq<(Subject, nat)>) {
    if slots == [] then []
    else
      var front, slot := FlushLines(slots[..|slots| - 1]), slots[|slots| - 1];
      if slot.Some? && slot.value.limited then front + [(slot.value.subject, slot.value.suppressed)] else front
  }

  function Calmed(slot: Option<Entry>): Option<Entry> {
    if slot.Some? then Some(slot.value.(limited := false)) else None
  }

  /** What `serve` asks of the table. */
  datatype Event = Enter(s: Subject, now: nat) | Leave(s: Subject, served: bool, now: nat)

  class Table {
    var slots: Slots
    const workers: nat

    ghost predicate Valid()
      reads this
    {
      |slots| == IDENT_MAX && Unique(slots)
    }

    constructor (workers: nat)
      ensures Valid() && this.workers == workers && forall i :: 0 <= i < IDENT_MAX ==> slots[i].None?
    {
      slots := seq(IDENT_MAX, i => None);
      this.workers := workers;
    }

    method Enter(subject: Subject, now: nat) returns (admitted: bool, note: Note)
      requires Valid()
      modifies this
      ensures Valid() && slots == Entered(old(slots), subject, workers, now)
      ensures admitted <==> !Refuses(old(slots), subject, workers, now)
      ensures note == NoteFor(old(slots), subject, workers, now)
    {
      hide Unique, Find, Spare;
      EnteredUnique(slots, subject, workers, now);
      note := SILENT;
      var mine, spare, others := Scan(slots, subject, now);
      var cap := workers;
      if others && cap > 1 {
        cap := workers - 1;
      }
      if mine >= 0 {
        var e := slots[mine].value;
        if e.inFlight >= cap {
          if !e.limited {
            e := e.(limited := true, limitedSince := now, suppressed := 0);
            note := note.(logRefusal := true);
          } else {
            e := e.(suppressed := e.suppressed + 1);
          }
          slots := slots[mine := Some(e.(lastRefusal := now))];
          return false, note;
        }
        if e.limited && now - e.lastRefusal >= COOLDOWN_S {
          note := Note(false, true, e.suppressed, now - e.limitedSince);
          e := e.(limited := false, suppressed := 0);
        }
        slots := slots[mine := Some(e.(inFlight := e.inFlight + 1))];
      } else {
        if spare < 0 {
          return true, note;
        }
        slots := slots[spare := Some(Newcomer(slots[spare], subject))];
      }
      admitted := true;
    }

    /** At shutdown, when no request is left. */
    method FlushBursts() returns (lines: seq<(Subject, nat)>)
      requires Valid()
      modifies this
      ensures Valid() && lines == FlushLines(old(slots))
      ensures forall i :: 0 <= i < IDENT_MAX ==> slots[i] == Calmed(old(slots)[i])
    {
      lines := [];
      ghost var was := slots;
      for i := 0 to IDENT_MAX
        invariant lines == FlushLines(was[..i]) && |slots| == IDENT_MAX
        invariant forall j :: i <= j < IDENT_MAX ==> slots[j] == was[j]
        invariant forall j :: 0 <= j < i ==> slots[j] == Calmed(was[j])
      {
        assert was[..i + 1][..i] == was[..i];
        if slots[i].Some? && slots[i].value.limited {
          var e := slots[i].value;
          lines := lines + [(e.subject, e.suppressed)];
          slots := slots[i := Some(e.(limited := false))];
        }
      }
      assert was[..IDENT_MAX] == was;
    }

    method Leave(subject: Subject, served: bool, now: nat)
      requires Valid()
      modifies this
      ensures Valid() && slots == Left(old(slots), subject, served, now)
    {
      var i := 0;
      while i < IDENT_MAX
        invariant 0 <= i <= IDENT_MAX && slots == old(slots)
        invariant forall j :: 0 <= j < i ==> !(Holds(slots[j], subject) && slots[j].value.inFlight > 0)
      {
        if slots[i].Some? && slots[i].value.inFlight > 0 && slots[i].value.subject == subject {
          var e := slots[i].value;
          e := e.(inFlight := e.inFlight - 1);
          if served {
            e := e.(lastSeen := now);
          }
          slots := slots[i := Some(e)];
          return;
        }
        i := i + 1;
      }
    }
  }

  lemma EnteredUnique(slots: Slots, s: Subject, workers: nat, now: nat)
    requires Unique(slots)
    ensures Unique(Entered(slots, s, workers, now))
  {
  }

  // ------------------------------------------------------------- accounting

  function EntryOf(slots: Slots, s: Subject): Option<Entry> {
    var i := Find(slots, s, |slots|);
    if i >= 0 then slots[i] else None
  }

  function InFlight(slots: Slots, s: Subject): nat {
    var e := EntryOf(slots, s);
    if e.Some? then e.value.inFlight else 0
  }

  /** The admission finds an entry or a reusable slot, so it can be counted. */
  predicate Countable(slots: Slots, s: Subject, now: nat) {
    Find(slots, s, |slots|) >= 0 || Spare(slots, s, now, |slots|) >= 0
  }

  /** How entering moves the counts: one up for an admission that can be
      counted, nothing for a refusal, nothing for anyone else. */
  lemma EnterCounts(slots: Slots, s: Subject, workers: nat, now: nat, x: Subject)
    requires Unique(slots)
    ensures var r := Entered(slots, s, workers, now);
            InFlight(r, x) == InFlight(slots, x) +
              if x == s && !Refuses(slots, s, workers, now) && Countable(slots, s, now) then 1 else 0
  {
    var r := Entered(slots, s, workers, now);
    var mine, spare := Find(slots, s, |slots|), Spare(slots, s, now, |slots|);
    var k, k' := Find(slots, x, |slots|), Find(r, x, |slots|);
    var touched := if mine >= 0 then mine else spare;
    assert forall j :: 0 <= j < |slots| && j != touched ==> r[j] == slots[j];
    if x == s {
      if touched >= 0 {
        assert Holds(r[touched], s);
        EnteredUnique(slots, s, workers, now);
        assert k' == touched;
      }
    } else {
      if k >= 0 && k != touched {
        assert Holds(r[k], x);
        EnteredUnique(slots, s, workers, now);
        assert k' == k;
      }
      if k' >= 0 {
        assert k' != touched && Holds(slots[k'], x);
      }
    }
  }

  lemma LeaveCounts(slots: Slots, s: Subject, served: bool, now: nat, x: Subject)
    requires Unique(slots)
    ensures Unique(Left(slots, s, served, now))
    ensures InFlight(Left(slots, s, served, now), x) ==
            if x == s && InFlight(slots, s) > 0 then InFlight(slots, x) - 1 else InFlight(slots, x)
  {
    var r := Left(slots, s, served, now);
    var i := Leaving(slots, s);
    var k, k' := Find(slots, x, |slots|), Find(r, x, |slots|);
    assert forall j :: 0 <= j < |slots| ==> (r[j].Some? <==> slots[j].Some?)
                                            && (r[j].Some? ==> r[j].value.subject == slots[j].value.subject);
    assert forall j :: 0 <= j < |slots| ==> Holds(r[j], x) == Holds(slots[j], x);
    assert k == k';
  }

  /** A refusal changes neither any count nor anybody's presence, then or later. */
  lemma RefusalChangesNothing(slots: Slots, s: Subject, workers: nat, now: nat, x: Subject, later: nat)
    requires Unique(slots) && Refuses(slots, s, workers, now)
    ensures var r := Entered(slots, s, workers, now);
            && InFlight(r, x) == InFlight(slots, x)
            && OthersPresent(r, x, later) == OthersPresent(slots, x, later)
  {
    EnterCounts(slots, s, workers, now, x);
    var r := Entered(slots, s, workers, now);
    assert forall i :: 0 <= i < |slots| ==> (r[i].Some? <==> slots[i].Some?)
                                            && (r[i].Some? ==> r[i].value.subject == slots[i].value.subject
                                                               && r[i].value.inFlight == slots[i].value.inFlight
                                                               && r[i].value.lastSeen == slots[i].value.lastSeen);
    if OthersPresent(slots, x, later) {
      var i :| 0 <= i < |slots| && slots[i].Some? && slots[i].value.subject != x && Present(slots[i].value, later);
      assert r[i].Some? && r[i].value.subject != x && Present(r[i].value, later);
    }
    if OthersPresent(r, x, later) {
      var i :| 0 <= i < |r| && r[i].Some? && r[i].value.subject != x && Present(r[i].value, later);
      assert slots[i].Some? && slots[i].value.subject != x && Present(slots[i].value, later);
    }
  }

  /** Every slot belongs to another identity that is present. */
  predicate AllTaken(slots: Slots, s: Subject, now: nat) {
    forall i :: 0 <= i < |slots| ==>
      slots[i].Some? && slots[i].value.subject != s && Present(slots[i].value, now)
  }

  /** Exactly when an admission is let in uncounted: the identity is new and
      every slot belongs to somebody in flight or served within the window. */
  lemma UncountedExactlyWhenFull(slots: Slots, s: Subject, workers: nat, now: nat)
    requires Unique(slots)
    ensures !Refuses(slots, s, workers, now) && InFlight(Entered(slots, s, workers, now), s) == InFlight(slots, s) <==>
            AllTaken(slots, s, now)
  {
    EnterCounts(slots, s, workers, now, s);
    if AllTaken(slots, s, now) {
      assert Find(slots, s, |slots|) == -1;
      assert forall i :: 0 <= i < |slots| ==> !Reusable(slots[i], s, now);
    }
    if !Countable(slots, s, now) {
      forall i | 0 <= i < |slots|
        ensures slots[i].Some? && slots[i].value.subject != s && Present(slots[i].value, now)
      {
        assert !Holds(slots[i], s) && !Reusable(slots[i], s, now);
      }
    }
  }
}
