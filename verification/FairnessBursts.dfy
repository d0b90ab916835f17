/** Bursts of refusals in the fairness table (service/fhsm_service.c:498-571): the
    first is written, the rest are counted, and the count is written when the burst
    ends - unless somebody else takes the entry first. */
module FairnessBursts {
  import opened CText
  import opened Fairness

  // ------------------------------------------------------------- the last flush

  function LinesOf(lines: seq<(Subject, nat)>, x: Subject): (n: nat) {
    if lines == [] then 0
    else LinesOf(lines[..|lines| - 1], x) + if lines[|lines| - 1].0 == x then lines[|lines| - 1].1 else 0
  }

  /** What the entry of `x` has counted and not written. */
  function Pending(slots: Slots, x: Subject): (n: nat) {
    var e := EntryOf(slots, x);
    if e.Some? && e.value.limited then e.value.suppressed else 0
  }

  lemma {:induction false} FlushWritesPending(slots: Slots, x: Subject)
    requires Unique(slots)
    ensures LinesOf(FlushLines(slots), x) == Pending(slots, x)
  {
    if slots != [] {
      var front, slot := slots[..|slots| - 1], slots[|slots| - 1];
      assert Unique(front) by {
        assert forall i :: 0 <= i < |front| ==> front[i] == slots[i];
      }
      FlushWritesPending(front, x);
      SameFind(slots, x, |front|);
      if slot.Some? && slot.value.limited {
        var l := (slot.value.subject, slot.value.suppressed);
        assert (FlushLines(front) + [l])[..|FlushLines(front)|] == FlushLines(front);
      }
    }
  }

  lemma {:induction false} SameFind(slots: Slots, x: Subject, n: nat)
    requires n < |slots|
    ensures Find(slots[..|slots| - 1], x, n) == Find(slots, x, n)
  {
    if n > 0 {
      SameFind(slots, x, n - 1);
    }
  }

  // -------------------------------------------------------------------- ledger

  /** One identity through a run: the table; how often it was refused; the lines
      that opened a burst of its; the counts its closing lines gave; and what was
      counted in an entry that somebody else took. */
  datatype Ledger = Ledger(slots: Slots, refused: nat, begun: nat, resumed: nat, dropped: nat)

  /** What a newcomer overwrites: the pending count of `x`, if it takes its entry. */
  function Overwritten(slots: Slots, s: Subject, workers: nat, now: nat, x: Subject): nat {
    var spare := Spare(slots, s, now, |slots|);
    if s != x && Find(slots, s, |slots|) < 0 && spare >= 0 && Holds(slots[spare], x) then Pending(slots, x) else 0
  }

  function Post(l: Ledger, workers: nat, x: Subject, ev: Event): Ledger {
    match ev
    case Enter(s, now) =>
      var note := NoteFor(l.slots, s, workers, now);
      Ledger(Entered(l.slots, s, workers, now),
             l.refused + (if s == x && Refuses(l.slots, s, workers, now) then 1 else 0),
             l.begun + (if s == x && note.logRefusal then 1 else 0),
             l.resumed + (if s == x && note.logResume then note.suppressed else 0),
             l.dropped + Overwritten(l.slots, s, workers, now, x))
    case Leave(s, served, now) => l.(slots := Left(l.slots, s, served, now))
  }

  function PostAll(l: Ledger, workers: nat, x: Subject, evs: seq<Event>): Ledger
    decreases |evs|
  {
    if evs == [] then l else PostAll(Post(l, workers, x, evs[0]), workers, x, evs[1..])
  }

  predicate Balanced(l: Ledger, x: Subject) {
    && Unique(l.slots)
    && l.refused == l.begun + l.resumed + Pending(l.slots, x) + l.dropped
  }

  /** What entering does to the entry of `x`. */
  lemma EntryAfterEnter(slots: Slots, s: Subject, workers: nat, now: nat, x: Subject)
    requires Unique(slots)
    ensures Unique(Entered(slots, s, workers, now))
    ensures var e, e' := EntryOf(slots, x), EntryOf(Entered(slots, s, workers, now), x);
            var spare := Spare(slots, s, now, |slots|);
            var taken := Find(slots, s, |slots|) < 0 && spare >= 0 && Holds(slots[spare], x);
            if x == s then
              if e.None? then e'.Some? ==> !e'.value.limited
              else e' == Some(if Refuses(slots, s, workers, now) then Turned(e.value, now) else Admitted(e.value, now))
            else if taken then e'.None? else e' == e
  {
    hide Cap, Spare;
    var r := Entered(slots, s, workers, now);
    EnteredUnique(slots, s, workers, now);
    var mine, spare := Find(slots, s, |slots|), Spare(slots, s, now, |slots|);
    var touched := if mine >= 0 then mine else spare;
    var k, k' := Find(slots, x, |slots|), Find(r, x, |slots|);
    assert forall j :: 0 <= j < |slots| && j != touched ==> r[j] == slots[j];
    assert touched >= 0 ==> Holds(r[touched], s);
    if x == s {
      assert touched >= 0 ==> k' == touched;
    } else {
      assert k >= 0 && k != touched ==> Holds(r[k], x) && k' == k;
      assert k' >= 0 ==> k' != touched && Holds(slots[k'], x);
    }
  }

  lemma EntryAfterLeave(slots: Slots, s: Subject, served: bool, now: nat, x: Subject)
    requires Unique(slots)
    ensures Unique(Left(slots, s, served, now)) && Pending(Left(slots, s, served, now), x) == Pending(slots, x)
  {
    var r := Left(slots, s, served, now);
    var i := Leaving(slots, s);
    assert forall j :: 0 <= j < |slots| ==> (r[j].Some? <==> slots[j].Some?)
                                            && (r[j].Some? ==> r[j].value.subject == slots[j].value.subject
                                                               && r[j].value.limited == slots[j].value.limited
                                                               && r[j].value.suppressed == slots[j].value.suppressed);
    var k, k' := Find(slots, x, |slots|), Find(r, x, |slots|);
    assert k >= 0 ==> Holds(r[k], x);
    assert k' >= 0 ==> Holds(slots[k'], x);
    assert k == k';
  }

  lemma StepBalances(l: Ledger, workers: nat, x: Subject, ev: Event)
    requires Balanced(l, x)
    ensures Balanced(Post(l, workers, x, ev), x)
  {
    hide Unique, Find, Spare, Entered, Left, Cap;
    match ev
    case Enter(s, now) => EntryAfterEnter(l.slots, s, workers, now, x);
    case Leave(s, served, now) => EntryAfterLeave(l.slots, s, served, now, x);
  }

  lemma {:induction false} RunBalances(l: Ledger, workers: nat, x: Subject, evs: seq<Event>)
    requires Balanced(l, x)
    ensures Balanced(PostAll(l, workers, x, evs), x)
    decreases |evs|
  {
    hide Balanced, Post;
    if evs != [] {
      StepBalances(l, workers, x, evs[0]);
      RunBalances(Post(l, workers, x, evs[0]), workers, x, evs[1..]);
    }
  }

  /** At some entry of the run a newcomer takes the entry of `x` while it holds a
      count not yet written. */
  predicate Overwrites(l: Ledger, workers: nat, x: Subject, evs: seq<Event>)
    decreases |evs|
  {
    evs != [] &&
    (|| (evs[0].Enter? && Overwritten(l.slots, evs[0].s, workers, evs[0].now, x) > 0)
     || Overwrites(Post(l, workers, x, evs[0]), workers, x, evs[1..]))
  }

  lemma {:induction false} DroppedIff(l: Ledger, workers: nat, x: Subject, evs: seq<Event>)
    ensures PostAll(l, workers, x, evs).dropped >= l.dropped
    ensures PostAll(l, workers, x, evs).dropped > l.dropped <==> Overwrites(l, workers, x, evs)
    decreases |evs|
  {
    hide Overwritten;
    if evs != [] {
      DroppedIff(Post(l, workers, x, evs[0]), workers, x, evs[1..]);
    }
  }

  function Start(): Ledger { Ledger(seq(IDENT_MAX, i => None), 0, 0, 0, 0) }

  /** The account of refusals, over every run from the empty table and after the
      flush at shutdown: each refusal of an identity is in its opening lines, in a
      closing count or in the flush - if and only if no newcomer took its entry
      while that held a count. */
  lemma RefusalsWrittenIff(workers: nat, x: Subject, evs: seq<Event>)
    ensures var l := PostAll(Start(), workers, x, evs);
            l.refused == l.begun + l.resumed + LinesOf(FlushLines(l.slots), x) <==>
            !Overwrites(Start(), workers, x, evs)
  {
    hide FlushLines, Post, Overwrites;
    RunBalances(Start(), workers, x, evs);
    DroppedIff(Start(), workers, x, evs);
    FlushWritesPending(PostAll(Start(), workers, x, evs).slots, x);
  }

  // ------------------------------------------------------ when bursts begin and end

  /** What the callers of `ident_enter` see of one identity: a refusal written, a
      refusal only counted, an admission with a closing line, one without; and the
      loss of its entry to somebody else. */
  datatype Mark = Opened(at: nat) | Swallowed(at: nat) | Closed(at: nat, suppressed: nat, windowS: int)
                | Passed(at: nat) | Evicted

  function MarkOf(slots: Slots, workers: nat, x: Subject, ev: Event): seq<Mark> {
    if !ev.Enter? then []
    else if ev.s == x then
      var note, now := NoteFor(slots, x, workers, ev.now), ev.now;
      if Refuses(slots, x, workers, now) then [if note.logRefusal then Opened(now) else Swallowed(now)]
      else [if note.logResume then Closed(now, note.suppressed, note.windowS) else Passed(now)]
    else if EntryOf(slots, x).Some? && EntryOf(Entered(slots, ev.s, workers, ev.now), x).None? then [Evicted]
    else []
  }

  function TableAfter(slots: Slots, workers: nat, ev: Event): Slots {
    match ev
    case Enter(s, now) => Entered(slots, s, workers, now)
    case Leave(s, served, now) => Left(slots, s, served, now)
  }

  function Tables(workers: nat, evs: seq<Event>): Slots {
    if evs == [] then seq(IDENT_MAX, i => None)
    else TableAfter(Tables(workers, evs[..|evs| - 1]), workers, evs[|evs| - 1])
  }

  function Marks(workers: nat, x: Subject, evs: seq<Event>): seq<Mark> {
    if evs == [] then []
    else
      var front := evs[..|evs| - 1];
      Marks(workers, x, front) + MarkOf(Tables(workers, front), workers, x, evs[|evs| - 1])
  }

  /** The refusals of the running burst, by time, after one more mark. */
  function Grown(burst: seq<nat>, m: Mark): seq<nat> {
    match m
    case Opened(at) => burst + [at]
    case Swallowed(at) => burst + [at]
    case Closed(_, _, _) => []
    case Passed(_) => burst
    case Evicted => []
  }

  function Running(marks: seq<Mark>): seq<nat> {
    if marks == [] then [] else Grown(Running(marks[..|marks| - 1]), marks[|marks| - 1])
  }

  /** The rule of bursts: the first refusal is written and the rest counted; an
      admission five seconds or more after the last refusal closes the burst with
      the count behind the first and the time since the first; no other does. */
  predicate Fits(burst: seq<nat>, m: Mark) {
    match m
    case Opened(_) => burst == []
    case Swallowed(_) => burst != []
    case Closed(at, n, w) => burst != [] && at - burst[|burst| - 1] >= 5 && n == |burst| - 1 && w == at - burst[0]
    case Passed(at) => burst == [] || at - burst[|burst| - 1] < 5
    case Evicted => true
  }

  predicate ByTheRule(marks: seq<Mark>) {
    if marks == [] then true
    else ByTheRule(marks[..|marks| - 1]) && Fits(Running(marks[..|marks| - 1]), marks[|marks| - 1])
  }

  /** What the entry of `x` holds of the running burst. */
  predicate Mirrors(slots: Slots, x: Subject, burst: seq<nat>) {
    var e := EntryOf(slots, x);
    if burst == [] then e.Some? ==> !e.value.limited
    else
      && e.Some? && e.value.limited && e.value.suppressed == |burst| - 1
      && e.value.limitedSince == burst[0] && e.value.lastRefusal == burst[|burst| - 1]
  }

  lemma MarksMore(marks: seq<Mark>, m: Mark)
    ensures Running(marks + [m]) == Grown(Running(marks), m)
    ensures ByTheRule(marks + [m]) <==> ByTheRule(marks) && Fits(Running(marks), m)
  {
    assert (marks + [m])[..|marks|] == marks;
  }

  lemma MarkKeeps(slots: Slots, workers: nat, x: Subject, ev: Event, marks: seq<Mark>)
    requires Unique(slots) && Mirrors(slots, x, Running(marks)) && ByTheRule(marks)
    ensures var more := marks + MarkOf(slots, workers, x, ev); var r := TableAfter(slots, workers, ev);
            Unique(r) && Mirrors(r, x, Running(more)) && ByTheRule(more)
  {
    hide Unique, Find, Spare, Cap, Entered, Left, Running, ByTheRule;
    assert marks + [] == marks;
    match ev
    case Leave(s, served, now) => BurstAfterLeave(slots, s, served, now, x);
    case Enter(s, now) =>
      EntryAfterEnter(slots, s, workers, now, x);
      var ms := MarkOf(slots, workers, x, ev);
      if ms != [] {
        assert ms == [ms[0]];
        MarksMore(marks, ms[0]);
        if s == x {
          NoteIs(slots, x, workers, now);
        }
      }
  }

  lemma NoteIs(slots: Slots, x: Subject, workers: nat, now: nat)
    ensures var e, note := EntryOf(slots, x), NoteFor(slots, x, workers, now);
            && (Refuses(slots, x, workers, now) ==> e.Some?)
            && (e.None? ==> note == SILENT)
            && (e.Some? && Refuses(slots, x, workers, now) ==> (note.logRefusal <==> !e.value.limited))
            && (e.Some? && !Refuses(slots, x, workers, now) ==>
                  note == if Cooled(e.value, now) then Note(false, true, e.value.suppressed, now - e.value.limitedSince)
                          else SILENT)
  {
    hide Cap;
  }

  lemma BurstAfterLeave(slots: Slots, s: Subject, served: bool, now: nat, x: Subject)
    requires Unique(slots)
    ensures Unique(Left(slots, s, served, now))
    ensures var e, e' := EntryOf(slots, x), EntryOf(Left(slots, s, served, now), x);
            && (e'.Some? <==> e.Some?)
            && (e.Some? ==> e'.value == e.value.(inFlight := e'.value.inFlight, lastSeen := e'.value.lastSeen))
  {
    var r := Left(slots, s, served, now);
    var i := Leaving(slots, s);
    var k, k' := Find(slots, x, |slots|), Find(r, x, |slots|);
    assert forall j :: 0 <= j < |slots| ==> Holds(r[j], x) == Holds(slots[j], x);
    assert k == k';
  }

  lemma {:induction false} RunMirrors(workers: nat, x: Subject, evs: seq<Event>)
    ensures Unique(Tables(workers, evs)) && Mirrors(Tables(workers, evs), x, Running(Marks(workers, x, evs)))
    ensures ByTheRule(Marks(workers, x, evs))
  {
    hide Unique, Mirrors, Running, ByTheRule, MarkOf, TableAfter;
    if evs == [] {
      NothingMarked(x);
    } else {
      var front := evs[..|evs| - 1];
      RunMirrors(workers, x, front);
      MarkKeeps(Tables(workers, front), workers, x, evs[|evs| - 1], Marks(workers, x, front));
    }
  }

  lemma NothingMarked(x: Subject)
    ensures var slots: Slots := seq(IDENT_MAX, i => None);
            Unique(slots) && Mirrors(slots, x, Running([])) && ByTheRule([])
  {
  }

  /** In every run from the empty table, whatever the clock does, the lines about one
      identity follow the rule of bursts. */
  lemma BurstsByTheRule(workers: nat, x: Subject, evs: seq<Event>)
    ensures ByTheRule(Marks(workers, x, evs))
  {
    RunMirrors(workers, x, evs);
  }

  // ----------------------------------------------------------- a count that is lost

  /** A table with one entry, in the first slot. */
  function Only(e: Entry): (r: Slots) { seq(IDENT_MAX, i => if i == 0 then Some(e) else None) }

  lemma OnlyFinds(e: Entry, s: Subject)
    ensures Find(Only(e), s, IDENT_MAX) == if s == e.subject then 0 else -1
    ensures !OthersPresent(Only(e), e.subject, 0) && forall now: nat :: !OthersPresent(Only(e), e.subject, now)
  {
    hide Find;
    assert Holds(Only(e)[0], e.subject);
  }

  /** The first slot goes to the first newcomer, and to any later one that finds its
      entry expired, unused slots behind it or not. */
  lemma FirstSlotFirst(slots: Slots, s: Subject, now: nat)
    requires |slots| == IDENT_MAX && Reusable(slots[0], s, now) && forall i :: 0 < i < IDENT_MAX ==> slots[i].None?
    ensures Spare(slots, s, now, IDENT_MAX) == 0
  {
    hide Find;
    FirstSlot(slots, s, now, IDENT_MAX);
  }

  lemma {:induction false} FirstSlot(slots: Slots, s: Subject, now: nat, n: nat)
    requires 0 < n <= |slots| && Reusable(slots[0], s, now) && forall i :: 0 < i < |slots| ==> slots[i].None?
    ensures Spare(slots, s, now, n) == 0
  {
    if n > 1 {
      FirstSlot(slots, s, now, n - 1);
    } else {
      assert Spare(slots, s, now, 0) == -1;
    }
  }

  /** One worker, an identity refused twice while its request is served; it leaves
      and stays away for the window, and the next identity overwrites the count. */
  function LostRun(): seq<Event> {
    [Enter("x", 100), Enter("x", 100), Enter("x", 100), Leave("x", true, 100), Enter("y", 130)]
  }

  lemma EmptyFinds(slots: Slots, s: Subject, now: nat)
    requires |slots| == IDENT_MAX && forall i :: 0 <= i < IDENT_MAX ==> slots[i].None?
    ensures Find(slots, s, IDENT_MAX) == -1 && Spare(slots, s, now, IDENT_MAX) == 0
  {
    hide Find, Spare;
    FirstSlotFirst(slots, s, now);
  }

  lemma EnteredEmpty(slots: Slots, s: Subject, now: nat)
    requires |slots| == IDENT_MAX && forall i :: 0 <= i < IDENT_MAX ==> slots[i].None?
    ensures Entered(slots, s, 1, now) == Only(Entry(s, 1, 0, false, 0, 0, 0))
    ensures NoteFor(slots, s, 1, now) == SILENT && !Refuses(slots, s, 1, now)
  {
    hide Find, Spare, Cap, Turned, Admitted;
    EmptyFinds(slots, s, now);
    assert slots[0 := Some(Entry(s, 1, 0, false, 0, 0, 0))] == Only(Entry(s, 1, 0, false, 0, 0, 0));
  }

  lemma FirstEnter(l: Ledger)
    requires |l.slots| == IDENT_MAX && forall i :: 0 <= i < IDENT_MAX ==> l.slots[i].None?
    ensures Post(l, 1, "x", Enter("x", 100)) == l.(slots := Only(Entry("x", 1, 0, false, 0, 0, 0)))
  {
    hide Entered, NoteFor, Refuses, Only, Spare, Find;
    EnteredEmpty(l.slots, "x", 100);
  }

  lemma RefusedEnter(e: Entry, l: Ledger)
    requires e.subject == "x" && e.inFlight == 1 && l.slots == Only(e)
    ensures Post(l, 1, "x", Enter("x", 100)) ==
            l.(slots := Only(Turned(e, 100)), refused := l.refused + 1, begun := l.begun + if e.limited then 0 else 1)
  {
    hide Find, Spare, Turned;
    OnlyFinds(e, "x");
    assert Only(e)[0 := Some(Turned(e, 100))] == Only(Turned(e, 100));
  }

  lemma LeavesOnly(e: Entry, l: Ledger)
    requires e.subject == "x" && e.inFlight == 1 && l.slots == Only(e)
    ensures Post(l, 1, "x", Leave("x", true, 100)) == l.(slots := Only(e.(inFlight := 0, lastSeen := 100)))
  {
    assert Holds(Only(e)[0], "x");
    var e' := e.(inFlight := 0, lastSeen := 100);
    assert Only(e)[0 := Some(e')] == Only(e');
  }

  lemma CountCanBeLost()
    ensures Overwrites(Start(), 1, "x", LostRun())
  {
    hide Only, Post, Overwritten, Overwrites, LostRun;
    var e1, e2 := Entry("x", 1, 0, false, 0, 0, 0), Entry("x", 1, 0, true, 0, 100, 100);
    var e3, e4 := Entry("x", 1, 0, true, 1, 100, 100), Entry("x", 0, 100, true, 1, 100, 100);
    FirstEnter(Start());
    RefusedEnter(e1, Ledger(Only(e1), 0, 0, 0, 0));
    RefusedEnter(e2, Ledger(Only(e2), 1, 1, 0, 0));
    LeavesOnly(e3, Ledger(Only(e3), 2, 1, 0, 0));
    LastEntry(e4);
    var evs := LostRun();
    var l1, l2 := Ledger(Only(e1), 0, 0, 0, 0), Ledger(Only(e2), 1, 1, 0, 0);
    var l3, l4 := Ledger(Only(e3), 2, 1, 0, 0), Ledger(Only(e4), 2, 1, 0, 0);
    LostTails();
    assert Overwrites(l4, 1, "x", evs[4..]) by { OverwritesNow(l4, 1, "x", evs[4..]); }
    OverwritesLater(l3, 1, "x", evs[3..]);
    OverwritesLater(l2, 1, "x", evs[2..]);
    OverwritesLater(l1, 1, "x", evs[1..]);
    OverwritesLater(Start(), 1, "x", evs);
  }

  lemma LastEntry(e: Entry)
    requires e == Entry("x", 0, 100, true, 1, 100, 100)
    ensures Overwritten(Only(e), "y", 1, 130, "x") == 1
  {
    hide Find, Spare;
    OnlyFinds(e, "x");
    OnlyFinds(e, "y");
    FirstSlotFirst(Only(e), "y", 130);
  }

  lemma OverwritesNow(l: Ledger, workers: nat, x: Subject, evs: seq<Event>)
    requires evs != [] && evs[0].Enter? && Overwritten(l.slots, evs[0].s, workers, evs[0].now, x) > 0
    ensures Overwrites(l, workers, x, evs)
  {
    hide Post, Overwritten;
  }

  lemma LostTails()
    ensures var evs := LostRun();
            && |evs| == 5 && evs[1..][1..] == evs[2..] && evs[2..][1..] == evs[3..] && evs[3..][1..] == evs[4..]
            && evs[0] == evs[1..][0] == evs[2..][0] == Enter("x", 100)
            && evs[3..][0] == Leave("x", true, 100) && evs[4..][0] == Enter("y", 130)
  {
  }

  lemma OverwritesLater(l: Ledger, workers: nat, x: Subject, evs: seq<Event>)
    requires evs != [] && Overwrites(Post(l, workers, x, evs[0]), workers, x, evs[1..])
    ensures Overwrites(l, workers, x, evs)
  {
    hide Post, Overwritten;
  }
}
