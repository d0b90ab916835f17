/** Who is refused, told from the history alone (service/fhsm_service.c:373-588): who
    has requests open, who was served within the window, and when bursts of refusals
    begin and end. */
module FairnessPresence {
  import opened CText
  import opened Fairness
  import opened FairnessRuns

  // ---------------------------------------------------------------- who is here

  /** When a request of `x` was last served, or 0. */
  function Served(evs: seq<Event>, x: Subject): nat {
    if evs == [] then 0
    else
      var ev := evs[|evs| - 1];
      if ev.Leave? && ev.s == x && ev.served then ev.now else Served(evs[..|evs| - 1], x)
  }

  /** A request open, or one served within the last half minute. */
  predicate Here(open: multiset<Subject>, evs: seq<Event>, x: Subject, now: nat) {
    open[x] > 0 || now - Served(evs, x) < 30
  }

  ghost predicate SomebodyElseHere(open: multiset<Subject>, evs: seq<Event>, s: Subject, now: nat) {
    exists x :: x != s && Here(open, evs, x, now)
  }

  /** The clock does not go back, and was at 30 before the first event. */
  predicate ClockRuns(evs: seq<Event>, until: nat)
    decreases |evs|
  {
    until >= 30 && (evs != [] ==> evs[|evs| - 1].now <= until && ClockRuns(evs[..|evs| - 1], evs[|evs| - 1].now))
  }

  /** What the table knows of `x` by time `t`: when it was last served, unless that
      is too long ago to matter. */
  predicate Knows(slots: Slots, evs: seq<Event>, x: Subject, t: nat) {
    var e := EntryOf(slots, x);
    if e.Some? then e.value.lastSeen == Served(evs, x) || (e.value.lastSeen == 0 && Served(evs, x) + 30 <= t)
    else Served(evs, x) + 30 <= t
  }

  /** Entering leaves every time of service as it is: a newcomer has none, and may
      take only an entry that had stopped counting. */
  lemma SeenAfterEnter(slots: Slots, s: Subject, workers: nat, now: nat, x: Subject)
    requires Unique(slots)
    ensures var e, e' := EntryOf(slots, x), EntryOf(Entered(slots, s, workers, now), x);
            if e.None? then e'.Some? ==> e'.value.lastSeen == 0
            else if e'.None? then !Present(e.value, now)
            else e'.value.lastSeen == e.value.lastSeen
  {
    hide Cap;
    var r := Entered(slots, s, workers, now);
    EnteredUnique(slots, s, workers, now);
    var mine, spare := Find(slots, s, |slots|), Spare(slots, s, now, |slots|);
    var touched := if mine >= 0 then mine else spare;
    var k, k' := Find(slots, x, |slots|), Find(r, x, |slots|);
    assert forall j :: 0 <= j < |slots| && j != touched ==> r[j] == slots[j];
    assert touched >= 0 ==> Holds(r[touched], s);
    if x == s {
      assert touched >= 0 ==> k' == touched;
    } else {
      assert k >= 0 && k != touched ==> Holds(r[k], x) && k' == k;
      assert k' >= 0 ==> k' != touched && Holds(slots[k'], x);
    }
  }

  /** Leaving served is what gives presence; leaving otherwise gives none. */
  lemma SeenAfterLeave(slots: Slots, s: Subject, served: bool, now: nat, x: Subject)
    requires Unique(slots)
    ensures var e, e' := EntryOf(slots, x), EntryOf(Left(slots, s, served, now), x);
            && (e'.Some? <==> e.Some?)
            && (e.Some? ==>
                  e'.value.lastSeen == if x == s && served && e.value.inFlight > 0 then now else e.value.lastSeen)
  {
    var r := Left(slots, s, served, now);
    var i := Leaving(slots, s);
    var k, k' := Find(slots, x, |slots|), Find(r, x, |slots|);
    assert forall j :: 0 <= j < |slots| ==> Holds(r[j], x) == Holds(slots[j], x);
    assert k == k';
  }

  lemma KnowsNext(f: Floor, workers: nat, evs: seq<Event>, ev: Event, x: Subject, t: nat)
    requires Accounted(f) && Possible(f, ev) && t <= ev.now && Knows(f.slots, evs, x, t)
    ensures Knows(Next(f, workers, ev).slots, evs + [ev], x, ev.now)
  {
    hide Unique, Entered, Left, Refuses;
    assert (evs + [ev])[..|evs|] == evs;
    assert InFlight(f.slots, x) == f.open[x];
    match ev
    case Enter(s, now) => SeenAfterEnter(f.slots, s, workers, now, x);
    case Leave(s, served, now) => SeenAfterLeave(f.slots, s, served, now, x);
  }

  /** Over a run from the empty table in which every admission finds a slot. */
  ghost predicate Follows(f: Floor, evs: seq<Event>, t: nat) {
    Accounted(f) && forall x :: Knows(f.slots, evs, x, t)
  }

  lemma NextFollows(f: Floor, workers: nat, evs: seq<Event>, ev: Event, t: nat)
    requires Follows(f, evs, t) && Possible(f, ev) && t <= ev.now
    requires ev.Enter? ==> Countable(f.slots, ev.s, ev.now)
    ensures Follows(Next(f, workers, ev), evs + [ev], ev.now)
  {
    hide Accounted, Knows, Next, Countable;
    CountsAgree(f, workers, ev);
    forall x
      ensures Knows(Next(f, workers, ev).slots, evs + [ev], x, ev.now)
    {
      KnowsNext(f, workers, evs, ev, x, t);
    }
  }

  lemma FollowsLater(f: Floor, evs: seq<Event>, t: nat, later: nat)
    requires Follows(f, evs, t) && t <= later
    ensures Follows(f, evs, later)
  {
    forall x
      ensures Knows(f.slots, evs, x, later)
    {
      assert Knows(f.slots, evs, x, t);
    }
  }

  lemma NothingYet(t: nat)
    requires t >= 30
    ensures Follows(Empty(), [], t)
  {
    CrowdAccounted(0);
    forall x: Subject
      ensures EntryOf(Empty().slots, x).None?
    {
      assert forall i :: 0 <= i < IDENT_MAX ==> Crowd(0)[i].None?;
    }
  }

  lemma {:induction false} RunFollows(workers: nat, evs: seq<Event>, t: nat)
    requires Counted(Empty(), workers, evs) && ClockRuns(evs, t)
    ensures Follows(Play(Empty(), workers, evs), evs, t)
    decreases |evs|
  {
    hide Follows, Next, Empty, Countable;
    if evs == [] {
      NothingYet(t);
    } else {
      var n := |evs| - 1;
      var front, ev := evs[..n], evs[n];
      assert evs == front + [ev];
      CountedSplits(Empty(), workers, front, ev);
      RunFollows(workers, front, ev.now);
      NextFollows(Play(Empty(), workers, front), workers, front, ev, ev.now);
      FollowsLater(Play(Empty(), workers, evs), evs, ev.now, t);
    }
  }

  lemma {:induction false} CountedSplits(f: Floor, workers: nat, evs: seq<Event>, ev: Event)
    requires Counted(f, workers, evs + [ev])
    ensures Counted(f, workers, evs)
    ensures var g := Play(f, workers, evs);
            && Possible(g, ev) && (ev.Enter? ==> Countable(g.slots, ev.s, ev.now))
            && Play(f, workers, evs + [ev]) == Next(g, workers, ev)
    decreases |evs|
  {
    hide Next, Countable;
    if evs == [] {
      assert evs + [ev] == [ev] && [ev][1..] == [];
    } else {
      assert (evs + [ev])[0] == evs[0] && (evs + [ev])[1..] == evs[1..] + [ev];
      CountedSplits(Next(f, workers, evs[0]), workers, evs[1..], ev);
    }
  }

  /** The table's view of the others is the history's. */
  lemma OthersAreHere(f: Floor, evs: seq<Event>, s: Subject, now: nat)
    requires Follows(f, evs, now) && now >= 30
    ensures OthersPresent(f.slots, s, now) <==> SomebodyElseHere(f.open, evs, s, now)
  {
    hide Unique;
    if OthersPresent(f.slots, s, now) {
      var i :| && 0 <= i < |f.slots| && f.slots[i].Some? && f.slots[i].value.subject != s
               && Present(f.slots[i].value, now);
      var x := f.slots[i].value.subject;
      EntryAt(f.slots, i);
      assert Knows(f.slots, evs, x, now) && InFlight(f.slots, x) == f.open[x];
      assert Here(f.open, evs, x, now);
    }
    if x :| x != s && Here(f.open, evs, x, now) {
      assert Knows(f.slots, evs, x, now) && InFlight(f.slots, x) == f.open[x];
      var i := Find(f.slots, x, |f.slots|);
      assert f.slots[i].Some? && f.slots[i].value.subject != s && Present(f.slots[i].value, now);
    }
  }

  lemma EntryAt(slots: Slots, i: nat)
    requires Unique(slots) && i < |slots| && slots[i].Some?
    ensures EntryOf(slots, slots[i].value.subject) == slots[i]
  {
    assert Holds(slots[i], slots[i].value.subject);
  }

  /** A request is refused if and only if its identity already has every worker - or
      every worker but one, when there is more than one and somebody else has a
      request open or was served within the last half minute. */
  lemma RefusedIff(workers: nat, evs: seq<Event>, s: Subject, now: nat)
    requires workers >= 1 && Counted(Empty(), workers, evs) && ClockRuns(evs, now)
    ensures var f := Play(Empty(), workers, evs);
            Refuses(f.slots, s, workers, now) <==>
            f.open[s] >= if workers > 1 && SomebodyElseHere(f.open, evs, s, now) then workers - 1 else workers
  {
    hide Knows, Unique, Play, Counted, OthersPresent, SomebodyElseHere;
    var f := Play(Empty(), workers, evs);
    RunFollows(workers, evs, now);
    OthersAreHere(f, evs, s, now);
    assert InFlight(f.slots, s) == f.open[s];
  }
}
