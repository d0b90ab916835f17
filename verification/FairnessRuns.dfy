/** Runs of requests through the fairness table (service/fhsm_service.c:470-588,
    1562-1567, 1726-1727): the account, the cap, and the table that fills. */
module FairnessRuns {
  import opened CText
  import opened Fairness
  import HttpRequest

  // -------------------------------------------------------------------- runs

  /** The table, and the requests `serve` has admitted and not yet left. */
  datatype Floor = Floor(slots: Slots, open: multiset<Subject>)

  predicate Possible(f: Floor, ev: Event) { ev.Leave? ==> ev.s in f.open }

  function Next(f: Floor, workers: nat, ev: Event): Floor {
    match ev
    case Enter(s, now) =>
      Floor(Entered(f.slots, s, workers, now),
            if Refuses(f.slots, s, workers, now) then f.open else f.open + multiset{s})
    case Leave(s, served, now) => Floor(Left(f.slots, s, served, now), f.open - multiset{s})
  }

  function Play(f: Floor, workers: nat, evs: seq<Event>): Floor
    decreases |evs|
  {
    if evs == [] then f else Play(Next(f, workers, evs[0]), workers, evs[1..])
  }

  /** A run in which every admission finds its entry or a reusable slot. */
  predicate Counted(f: Floor, workers: nat, evs: seq<Event>)
    decreases |evs|
  {
    evs == [] ||
    (&& Possible(f, evs[0])
     && (evs[0].Enter? ==> Countable(f.slots, evs[0].s, evs[0].now))
     && Counted(Next(f, workers, evs[0]), workers, evs[1..]))
  }

  ghost predicate Accounted(f: Floor) {
    Unique(f.slots) && forall x :: InFlight(f.slots, x) == f.open[x]
  }

  lemma CountsAgree(f: Floor, workers: nat, ev: Event)
    requires Accounted(f) && Possible(f, ev)
    requires ev.Enter? ==> Countable(f.slots, ev.s, ev.now)
    ensures Accounted(Next(f, workers, ev))
  {
    hide Unique, Find, Spare, Entered, Left, Refuses, Countable;
    var f' := Next(f, workers, ev);
    if ev.Enter? {
      EnteredUnique(f.slots, ev.s, workers, ev.now);
    } else {
      LeaveCounts(f.slots, ev.s, ev.served, ev.now, ev.s);
    }
    forall x
      ensures InFlight(f'.slots, x) == f'.open[x]
    {
      assert InFlight(f.slots, x) == f.open[x] && InFlight(f.slots, ev.s) == f.open[ev.s];
      if ev.Enter? {
        EnterCounts(f.slots, ev.s, workers, ev.now, x);
      } else {
        LeaveCounts(f.slots, ev.s, ev.served, ev.now, x);
      }
    }
  }

  /** Fairness accounting: in every such run each identity's count is the number
      of its requests admitted and not yet left, and subjects stay unique. */
  lemma {:induction false} FairnessAccounting(f: Floor, workers: nat, evs: seq<Event>)
    requires Accounted(f) && Counted(f, workers, evs)
    ensures Accounted(Play(f, workers, evs))
    decreases |evs|
  {
    hide Accounted, Next, Countable;
    if evs != [] {
      CountsAgree(f, workers, evs[0]);
      FairnessAccounting(Next(f, workers, evs[0]), workers, evs[1..]);
    }
  }

  /** Somebody else is present whenever `x` asks. */
  predicate Contended(f: Floor, workers: nat, evs: seq<Event>, x: Subject)
    decreases |evs|
  {
    evs == [] ||
    (&& (evs[0].Enter? && evs[0].s == x ==> OthersPresent(f.slots, x, evs[0].now))
     && Contended(Next(f, workers, evs[0]), workers, evs[1..], x))
  }

  /** The cap: while another identity stays present, one that is at or below
      workers - 1 requests never gets past it, so a worker is always left over. */
  lemma {:induction false} CapHolds(f: Floor, workers: nat, evs: seq<Event>, x: Subject)
    requires workers > 1 && Unique(f.slots) && InFlight(f.slots, x) <= workers - 1
    requires Contended(f, workers, evs, x)
    ensures InFlight(Play(f, workers, evs).slots, x) <= workers - 1
    decreases |evs|
  {
    hide Unique, Find, Entered, Left, Countable, Spare;
    if evs != [] {
      match evs[0] {
        case Enter(s, now) =>
          EnteredUnique(f.slots, s, workers, now);
          EnterCounts(f.slots, s, workers, now, x);
        case Leave(s, served, now) =>
          LeaveCounts(f.slots, s, served, now, x);
      }
      CapHolds(Next(f, workers, evs[0]), workers, evs[1..], x);
    }
  }

  /** So an entry keeps the account if and only if it is refused or can be counted ... */
  lemma AccountKeptIff(f: Floor, workers: nat, s: Subject, now: nat)
    requires Accounted(f)
    ensures Accounted(Next(f, workers, Enter(s, now))) <==>
            Refuses(f.slots, s, workers, now) || Countable(f.slots, s, now)
  {
    hide Unique, Find, Spare, Entered, Refuses, Countable;
    var f' := Next(f, workers, Enter(s, now));
    EnteredUnique(f.slots, s, workers, now);
    EnterCounts(f.slots, s, workers, now, s);
    assert InFlight(f.slots, s) == f.open[s];
    if Refuses(f.slots, s, workers, now) || Countable(f.slots, s, now) {
      forall x
        ensures InFlight(f'.slots, x) == f'.open[x]
      {
        EnterCounts(f.slots, s, workers, now, x);
        assert InFlight(f.slots, x) == f.open[x];
      }
    } else {
      assert InFlight(f'.slots, s) != f'.open[s];
    }
  }

  /** Requests enter as they please and leave once admitted. */
  predicate Feasible(f: Floor, workers: nat, evs: seq<Event>)
    decreases |evs|
  {
    evs == [] || (Possible(f, evs[0]) && Feasible(Next(f, workers, evs[0]), workers, evs[1..]))
  }

  ghost predicate Undercounted(f: Floor) {
    Unique(f.slots) && forall x :: InFlight(f.slots, x) <= f.open[x]
  }

  lemma UndercountKept(f: Floor, workers: nat, ev: Event)
    requires Undercounted(f) && Possible(f, ev)
    ensures Undercounted(Next(f, workers, ev))
  {
    hide Unique, Find, Spare, Entered, Left, Refuses, Countable;
    var f' := Next(f, workers, ev);
    if ev.Enter? {
      EnteredUnique(f.slots, ev.s, workers, ev.now);
    } else {
      LeaveCounts(f.slots, ev.s, ev.served, ev.now, ev.s);
    }
    forall x
      ensures InFlight(f'.slots, x) <= f'.open[x]
    {
      assert InFlight(f.slots, x) <= f.open[x] && InFlight(f.slots, ev.s) <= f.open[ev.s];
      if ev.Enter? {
        EnterCounts(f.slots, ev.s, workers, ev.now, x);
      } else {
        LeaveCounts(f.slots, ev.s, ev.served, ev.now, x);
      }
    }
  }

  /** ... and in every run at all, slots found or not, no identity is ever counted
      for more requests than it has: what goes uncounted only errs in its favour. */
  lemma {:induction false} NeverOvercounts(f: Floor, workers: nat, evs: seq<Event>)
    requires Undercounted(f) && Feasible(f, workers, evs)
    ensures Undercounted(Play(f, workers, evs))
    decreases |evs|
  {
    hide Undercounted, Next;
    if evs != [] {
      UndercountKept(f, workers, evs[0]);
      NeverOvercounts(Next(f, workers, evs[0]), workers, evs[1..]);
    }
  }

  // ------------------------------------------------------------ a full table

  const NOON: nat := 100

  /** One of 128 two-letter names. */
  function Who(i: nat): (s: Subject)
    requires i < IDENT_MAX
  {
    ['A' + (i / 16) as char, 'A' + (i % 16) as char]
  }

  lemma WhoIsWho(i: nat, j: nat)
    requires i < IDENT_MAX && j < IDENT_MAX && Who(i) == Who(j)
    ensures i == j
  {
    assert Who(i)[0] == Who(j)[0] && Who(i)[1] == Who(j)[1];
  }

  /** The first `k` of them served, nobody in flight. */
  function Crowd(k: nat): (r: Slots)
    requires k <= IDENT_MAX
    ensures |r| == IDENT_MAX
  {
    seq(IDENT_MAX, i requires 0 <= i < IDENT_MAX =>
      if i < k then Some(Entry(Who(i), 0, NOON, false, 0, 0, 0)) else None)
  }

  /** They come and go one after the other. */
  function Rush(k: nat): seq<Event>
    requires k <= IDENT_MAX
  {
    if k == 0 then [] else Rush(k - 1) + [Enter(Who(k - 1), NOON), Leave(Who(k - 1), true, NOON)]
  }

  function Empty(): Floor { Floor(Crowd(0), multiset{}) }

  lemma {:induction false} PlayAppend(f: Floor, workers: nat, a: seq<Event>, b: seq<Event>)
    requires Feasible(f, workers, a) && Feasible(Play(f, workers, a), workers, b)
    ensures Feasible(f, workers, a + b) && Play(f, workers, a + b) == Play(Play(f, workers, a), workers, b)
    decreases |a|
  {
    hide Next;
    if a == [] {
      assert a + b == b;
    } else {
      assert (a + b)[1..] == a[1..] + b;
      PlayAppend(Next(f, workers, a[0]), workers, a[1..], b);
    }
  }

  /** A newcomer finds the first unused slot behind the crowd. */
  lemma CrowdSlots(k: nat, s: Subject, now: nat)
    requires k <= IDENT_MAX && NOON <= now < NOON + WINDOW_S && forall i :: 0 <= i < k ==> Who(i) != s
    ensures Find(Crowd(k), s, IDENT_MAX) == -1
    ensures Spare(Crowd(k), s, now, IDENT_MAX) == if k < IDENT_MAX then k else -1
  {
    hide Who, Spare, Find;
    var slots := Crowd(k);
    assert forall i :: 0 <= i < k ==> !Reusable(slots[i], s, now);
    assert k < IDENT_MAX ==> Reusable(slots[k], s, now);
  }

  lemma OneMore(workers: nat, k: nat)
    requires k < IDENT_MAX
    ensures var f := Floor(Crowd(k), multiset{});
            var f1 := Next(f, workers, Enter(Who(k), NOON));
            && Who(k) in f1.open
            && Next(f1, workers, Leave(Who(k), true, NOON)) == Floor(Crowd(k + 1), multiset{})
  {
    hide Who, Spare, Find, Leaving;
    forall i | 0 <= i < k
      ensures Who(i) != Who(k)
    {
      if Who(i) == Who(k) {
        WhoIsWho(i, k);
      }
    }
    CrowdSlots(k, Who(k), NOON);
    var f1 := Next(Floor(Crowd(k), multiset{}), workers, Enter(Who(k), NOON));
    assert f1.slots == Crowd(k)[k := Some(Entry(Who(k), 1, 0, false, 0, 0, 0))];
    assert Holds(f1.slots[k], Who(k)) && f1.slots[k].value.inFlight == 1;
    assert forall j :: 0 <= j < IDENT_MAX && j != k ==> f1.slots[j] == Crowd(k)[j];
    assert Leaving(f1.slots, Who(k)) == k;
    assert Left(f1.slots, Who(k), true, NOON) == Crowd(k + 1);
  }

  lemma {:induction false} RushFills(workers: nat, k: nat)
    requires k <= IDENT_MAX
    ensures Feasible(Empty(), workers, Rush(k)) && Play(Empty(), workers, Rush(k)) == Floor(Crowd(k), multiset{})
  {
    hide Next, Crowd, Who;
    if k > 0 {
      RushFills(workers, k - 1);
      OneMore(workers, k - 1);
      var f := Floor(Crowd(k - 1), multiset{});
      var one, two := Enter(Who(k - 1), NOON), Leave(Who(k - 1), true, NOON);
      assert [one, two][1..] == [two] && [two][1..] == [];
      assert Feasible(Next(f, workers, one), workers, [two]);
      var f1 := Next(f, workers, one);
      assert Play(f1, workers, [two]) == Play(Next(f1, workers, two), workers, []);
      assert Play(f, workers, [one, two]) == Play(f1, workers, [two]);
      PlayAppend(Empty(), workers, Rush(k - 1), [one, two]);
    }
  }

  /** What the request reader lets through as a subject. */
  predicate Acceptable(s: Subject) {
    0 < |s| < HttpRequest.MAX_SUBJECT && forall c :: c in s ==> HttpRequest.Plain(c)
  }

  lemma WhoAcceptable(i: nat)
    requires i < IDENT_MAX
    ensures Acceptable(Who(i))
  {
    assert 'A' <= Who(i)[0] <= 'H' && 'A' <= Who(i)[1] <= 'P';
  }

  lemma {:induction false} RushAcceptable(k: nat)
    requires k <= IDENT_MAX
    ensures forall i :: 0 <= i < |Rush(k)| ==> Acceptable(Rush(k)[i].s)
  {
    if k > 0 {
      RushAcceptable(k - 1);
      WhoAcceptable(k - 1);
    }
  }

  /** The table does fill: 128 acceptable identities come, are served and go, one
      after the other, and leave no slot for a newcomer within the window, although
      nobody is in flight. The newcomer is let in and the account is broken. The
      comment at service/fhsm_service.c:421-423 says a slot is always free. */
  lemma TableFills(workers: nat, now: nat)
    requires NOON <= now < NOON + WINDOW_S
    ensures var evs := Rush(IDENT_MAX);
            && Feasible(Empty(), workers, evs)
            && (forall i :: 0 <= i < |evs| ==> Acceptable(evs[i].s))
            && var f := Play(Empty(), workers, evs);
               && f.open == multiset{} && Accounted(f)
               && !Countable(f.slots, "new", now) && !Refuses(f.slots, "new", workers, now)
               && !Accounted(Next(f, workers, Enter("new", now)))
  {
    RushFills(workers, IDENT_MAX);
    RushAcceptable(IDENT_MAX);
    var f := Floor(Crowd(IDENT_MAX), multiset{});
    CrowdAccounted(IDENT_MAX);
    CrowdSlots(IDENT_MAX, "new", now);
    AccountKeptIff(f, workers, "new", now);
  }

  lemma CrowdAccounted(k: nat)
    requires k <= IDENT_MAX
    ensures Accounted(Floor(Crowd(k), multiset{}))
  {
    hide Who, Find;
    var slots := Crowd(k);
    forall i, j | 0 <= i < k && 0 <= j < k && slots[i].value.subject == slots[j].value.subject
      ensures i == j
    {
      WhoIsWho(i, j);
    }
  }
}
