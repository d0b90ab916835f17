/** How fast an identity can collect refusals (service/fhsm_service.c:645-662,
    733-801, 1549-1554, 1668-1670), over runs of requests in flight side by side. */
module BudgetRate {
  import opened CText
  import opened Budget

  /** What request `id` of an identity does, with the clock reading it takes: the
      budget check, after which it goes on or is turned away; a refused
      authorisation, which is charged; or any other end. */
  datatype Event =
    | Check(s: Subject, id: nat, now: int)
    | Refuse(s: Subject, id: nat, now: int)
    | Finish(s: Subject, id: nat, now: int)

  /** One identity seen through a run: the table, the clock, its requests past the
      check and not yet ended, those of them checked since the last leading charge,
      how often it was charged, how many charges led, and when the first came. A
      charge leads when its request was checked after the previous leading charge. */
  datatype Watch = Watch(slots: Slots, now: int, open: set<nat>, recent: set<nat>, charges: nat, leads: nat, first: int)

  /** The clock does not go back. A request is checked once, while fewer than `width`
      of the identity are past their check; only a request past its check is charged,
      once, and the charge finds a slot. Other identities do as they please. */
  predicate Allowed(w: Watch, x: Subject, width: nat, ev: Event) {
    && w.now <= ev.now
    && (ev.s == x ==>
          match ev
          case Check(_, id, _) => id !in w.open && |w.open| < width
          case Refuse(_, id, now) => id in w.open && Slot(w.slots, x, now) >= 0
          case Finish(_, id, _) => id in w.open)
  }

  function Observe(w: Watch, x: Subject, ev: Event): Watch {
    var w1 := w.(slots := if ev.Refuse? then Charged(w.slots, ev.s, ev.now) else w.slots, now := ev.now);
    if ev.s != x then w1
    else
      match ev
      case Check(_, id, now) =>
        if Owed(w.slots, x, now) > 0 then w1 else w1.(open := w.open + {id}, recent := w.recent + {id})
      case Refuse(_, id, now) =>
        var first := if w.charges == 0 then now else w.first;
        var w2 := w1.(open := w.open - {id}, charges := w.charges + 1, first := first);
        if id in w.recent then w2.(recent := {}, leads := w.leads + 1) else w2
      case Finish(_, id, _) => w1.(open := w.open - {id}, recent := w.recent - {id})
  }

  predicate AllowedRun(w: Watch, x: Subject, width: nat, evs: seq<Event>)
    decreases |evs|
  {
    evs == [] || (Allowed(w, x, width, evs[0]) && AllowedRun(Observe(w, x, evs[0]), x, width, evs[1..]))
  }

  function ObserveAll(w: Watch, x: Subject, evs: seq<Event>): Watch
    decreases |evs|
  {
    if evs == [] then w else ObserveAll(Observe(w, x, evs[0]), x, evs[1..])
  }

  function Begin(slots: Slots, start: int): Watch { Watch(slots, start, {}, {}, 0, 0, 0) }

  // ---------------------------------------------------------------- invariant

  function Min(a: int, b: int): int { if a < b then a else b }

  /** What an entry is worth in seconds: a minute for each refusal counted, up to
      11, and the time from `first` to the last of them. */
  function Worth(e: Entry, first: int): int { CAP_S * Min(e.count, 11) + (e.last - first) }

  /** Every leading charge is paid for, in worth or by the clock. */
  predicate Paid(w: Watch, x: Subject) {
    var e := EntryOf(w.slots, x);
    w.leads > 0 ==>
      && w.first <= w.now
      && (e.None? ==> CAP_S * w.leads <= w.now - w.first)
      && (e.Some? ==> w.first <= e.value.last && CAP_S * w.leads <= Worth(e.value, w.first))
  }

  /** With a recently checked request in flight, the next leading charge is
      prepaid: the entry has not changed since a moment it owed nothing, or a
      charge in between has already been credited. */
  predicate Prepaid(w: Watch, x: Subject) {
    var e := EntryOf(w.slots, x);
    w.recent != {} && e.Some? ==>
      || (exists t :: e.value.last <= t <= w.now && OwedBy(e.value, t) == 0)
      || (w.leads > 0 && CAP_S * (w.leads + 1) <= Worth(e.value, w.first))
  }

  /** Each leading charge brings at most the rest of its company along. */
  predicate Grouped(w: Watch, width: nat) {
    && w.recent <= w.open && |w.open| <= width
    && w.charges + |w.open - w.recent| <= width * w.leads
  }

  predicate SaneClock(slots: Slots, x: Subject, now: int) {
    var e := EntryOf(slots, x);
    e.Some? ==> e.value.last <= now
  }

  predicate WatchInv(w: Watch, x: Subject, width: nat) {
    && Unique(w.slots) && SaneClock(w.slots, x, w.now) && (w.leads > 0 <==> w.charges > 0)
    && Paid(w, x) && Prepaid(w, x) && Grouped(w, width)
  }

  // ------------------------------------------------------------- the arithmetic

  /** A charge right after a clear check earns a minute: what the count gives up to
      decay, the clock more than repays. */
  lemma ChargeIsPaid(e: Entry, checked: int, now: int, first: int)
    requires e.last <= checked <= now && OwedBy(e, checked) == 0
    ensures CAP_S + Worth(e, first) <= Worth(Bumped(e, now), first)
  {
    var forgiven := (now - e.last) / DECAY_S;
    if forgiven == 0 {
      if e.count >= 11 {
        assert (checked - e.last) / DECAY_S == 0;
        assert Decayed(e, checked) == e.count;
        DelayGrows(e.count, e.count);
      }
    } else {
      assert now - e.last >= DECAY_S * forgiven;
      assert Bumped(e, now).count >= e.count - forgiven + 1;
    }
  }

  /** Any charge keeps the worth. */
  lemma ChargeKeepsWorth(e: Entry, now: int, first: int)
    requires e.last <= now
    ensures Worth(e, first) <= Worth(Bumped(e, now), first)
  {
    var forgiven := (now - e.last) / DECAY_S;
    assert now - e.last >= DECAY_S * forgiven;
    assert Bumped(e, now).count >= e.count - forgiven + 1;
  }

  // ------------------------------------------------------------------ the steps

  /** The identity's own charge, on the table side. */
  lemma OwnEntry(w: Watch, x: Subject, now: int)
    requires Unique(w.slots) && SaneClock(w.slots, x, w.now) && w.now <= now && Slot(w.slots, x, now) >= 0
    ensures var e, slots := EntryOf(w.slots, x), Charged(w.slots, x, now);
            && Unique(slots)
            && EntryOf(slots, x) == Some(if e.Some? then Bumped(e.value, now) else Entry(x, 1, now, false))
            && EntryOf(slots, x).value.last == now && EntryOf(slots, x).value.count >= 1
  {
    hide Find, Charged, Unique;
    ChargeEffect(w.slots, x, now, x);
  }

  lemma LeadingCharge(w: Watch, x: Subject, width: nat, id: nat, now: int)
    requires WatchInv(w, x, width) && Allowed(w, x, width, Refuse(x, id, now)) && id in w.recent
    ensures WatchInv(Observe(w, x, Refuse(x, id, now)), x, width)
  {
    hide Find, Charged, Unique, OwedBy, Bumped;
    OwnEntry(w, x, now);
    var w', e := Observe(w, x, Refuse(x, id, now)), EntryOf(w.slots, x);
    if e.Some? && w.leads > 0 {
      ChargeKeepsWorth(e.value, now, w.first);
      if t :| e.value.last <= t <= w.now && OwedBy(e.value, t) == 0 {
        ChargeIsPaid(e.value, t, now, w.first);
      }
    }
    assert |w'.open| == |w.open| - 1;
    assert w'.open - w'.recent == w'.open;
    OneMoreGroup(width, w.leads);
  }

  lemma OneMoreGroup(width: nat, leads: nat)
    ensures width * (leads + 1) == width * leads + width
  {
  }

  lemma FollowingCharge(w: Watch, x: Subject, width: nat, id: nat, now: int)
    requires WatchInv(w, x, width) && Allowed(w, x, width, Refuse(x, id, now)) && id !in w.recent
    ensures WatchInv(Observe(w, x, Refuse(x, id, now)), x, width)
  {
    hide Find, Charged, Unique, OwedBy, Bumped, Grouped, EntryOf;
    OwnEntry(w, x, now);
    FollowerGrouped(w, Observe(w, x, Refuse(x, id, now)), width, id);
    var e := EntryOf(w.slots, x);
    if e.Some? {
      ChargeKeepsWorth(e.value, now, w.first);
      if t :| e.value.last <= t <= w.now && OwedBy(e.value, t) == 0 {
        ChargeIsPaid(e.value, t, now, w.first);
      }
    }
  }

  lemma FollowerGrouped(w: Watch, w': Watch, width: nat, id: nat)
    requires Grouped(w, width) && id in w.open && id !in w.recent
    requires w'.open == w.open - {id} && w'.recent == w.recent && w'.charges == w.charges + 1 && w'.leads == w.leads
    ensures w.leads > 0 && Grouped(w', width)
  {
    assert id in w.open - w.recent;
    assert (w.open - {id}) - w.recent == (w.open - w.recent) - {id};
    FollowersFollow(width, w.leads, w.charges + |w.open - w.recent|);
  }

  lemma FollowersFollow(width: nat, leads: nat, n: nat)
    requires 0 < n <= width * leads
    ensures leads > 0
  {
  }

  /** A step that leaves the identity's own entry alone, or only drops it once it
      had decayed to nothing. */
  lemma Untouched(w: Watch, w': Watch, x: Subject, width: nat)
    requires WatchInv(w, x, width) && w.now <= w'.now && Unique(w'.slots) && Grouped(w', width)
    requires w'.charges == w.charges && w'.leads == w.leads && w'.first == w.first && w'.recent <= w.recent
    requires var e, e' := EntryOf(w.slots, x), EntryOf(w'.slots, x);
             e' == e || (e'.None? && DECAY_S * e.value.count <= w'.now - e.value.last)
    ensures WatchInv(w', x, width)
  {
    hide Find, Unique, OwedBy, Grouped;
    var e := EntryOf(w'.slots, x);
    if w'.recent != {} && e.Some? {
      if t :| e.value.last <= t <= w.now && OwedBy(e.value, t) == 0 {
        assert t <= w'.now;
      }
    }
  }

  lemma OtherCharge(w: Watch, x: Subject, width: nat, s: Subject, id: nat, now: int)
    requires WatchInv(w, x, width) && Allowed(w, x, width, Refuse(s, id, now)) && s != x
    ensures WatchInv(Observe(w, x, Refuse(s, id, now)), x, width)
  {
    hide Find, Charged, Unique, OwedBy, Paid, Prepaid;
    ChargeEffect(w.slots, s, now, x);
    var e := EntryOf(w.slots, x);
    if e.Some? && EntryOf(Charged(w.slots, s, now), x).None? {
      assert now - e.value.last >= DECAY_S * e.value.count;
    }
    Untouched(w, Observe(w, x, Refuse(s, id, now)), x, width);
  }

  lemma ClearCheck(w: Watch, x: Subject, width: nat, id: nat, now: int)
    requires WatchInv(w, x, width) && Allowed(w, x, width, Check(x, id, now)) && Owed(w.slots, x, now) <= 0
    ensures WatchInv(Observe(w, x, Check(x, id, now)), x, width)
  {
    hide Find, Unique;
    var w', e := Observe(w, x, Check(x, id, now)), EntryOf(w.slots, x);
    if e.Some? {
      assert e.value.last <= now <= w'.now && OwedBy(e.value, now) == 0;
    }
    assert w'.open - w'.recent == w.open - w.recent;
  }

  lemma StepKeeps(w: Watch, x: Subject, width: nat, ev: Event)
    requires WatchInv(w, x, width) && Allowed(w, x, width, ev)
    ensures WatchInv(Observe(w, x, ev), x, width)
  {
    hide Find, Unique, OwedBy, Charged, Paid, Prepaid;
    match ev
    case Refuse(s, id, now) =>
      if s != x {
        OtherCharge(w, x, width, s, id, now);
      } else if id in w.recent {
        LeadingCharge(w, x, width, id, now);
      } else {
        FollowingCharge(w, x, width, id, now);
      }
    case Check(s, id, now) =>
      if s == x && Owed(w.slots, x, now) <= 0 {
        ClearCheck(w, x, width, id, now);
      } else {
        Untouched(w, Observe(w, x, ev), x, width);
      }
    case Finish(s, id, now) =>
      var w' := Observe(w, x, ev);
      if s == x {
        assert w'.open - w'.recent <= w.open - w.recent;
        Smaller(w'.open - w'.recent, w.open - w.recent);
        Smaller(w'.open, w.open);
      }
      Untouched(w, w', x, width);
  }

  lemma {:induction false} Smaller(a: set<nat>, b: set<nat>)
    requires a <= b
    ensures |a| <= |b|
  {
    if a != {} {
      var x :| x in a;
      Smaller(a - {x}, b - {x});
    }
  }

  lemma {:induction false} WatchRun(w: Watch, x: Subject, width: nat, evs: seq<Event>)
    requires WatchInv(w, x, width) && AllowedRun(w, x, width, evs)
    ensures WatchInv(ObserveAll(w, x, evs), x, width)
    decreases |evs|
  {
    hide WatchInv, Observe, Allowed;
    if evs != [] {
      StepKeeps(w, x, width, evs[0]);
      WatchRun(Observe(w, x, evs[0]), x, width, evs[1..]);
    }
  }

  // -------------------------------------------------------------------- result

  /** Probing-rate bound. From any table, for every schedule of checks, waits,
      charges and ends by everybody, an identity with at most `width` requests side
      by side collects at most `width` refusals for each of 11, and one more
      `width` for each minute since its first. */
  lemma ProbingRate(slots: Slots, start: int, x: Subject, width: nat, evs: seq<Event>)
    requires Unique(slots) && SaneClock(slots, x, start) && AllowedRun(Begin(slots, start), x, width, evs)
    ensures var w := ObserveAll(Begin(slots, start), x, evs);
            w.charges > 0 ==> w.charges <= width * (11 + (w.now - w.first) / CAP_S)
  {
    hide Find, Observe, Allowed;
    WatchRun(Begin(slots, start), x, width, evs);
    var w := ObserveAll(Begin(slots, start), x, evs);
    if w.charges > 0 {
      assert CAP_S * w.leads <= CAP_S * 11 + (w.now - w.first);
      Widen(width, w.leads, 11 + (w.now - w.first) / CAP_S);
    }
  }

  lemma Widen(width: nat, a: nat, b: nat)
    requires a <= b
    ensures width * a <= width * b
  {
  }

  /** One request at a time: 11 refusals, and one more for each minute. */
  lemma SingleFileRate(slots: Slots, start: int, x: Subject, evs: seq<Event>)
    requires Unique(slots) && SaneClock(slots, x, start) && AllowedRun(Begin(slots, start), x, 1, evs)
    ensures var w := ObserveAll(Begin(slots, start), x, evs);
            w.charges > 0 ==> w.charges <= 11 + (w.now - w.first) / CAP_S
  {
    ProbingRate(slots, start, x, 1, evs);
  }

  // ------------------------------------------------------------- a full table

  const NOON: int := 1000

  /** One of 256 two-letter names. */
  function Who(i: nat): (s: Subject)
    requires i < MAX
  {
    ['A' + (i / 16) as char, 'A' + (i % 16) as char]
  }

  lemma WhoIsWho(i: nat, j: nat)
    requires i < MAX && j < MAX && Who(i) == Who(j)
    ensures i == j
  {
    assert Who(i)[0] == Who(j)[0] && Who(i)[1] == Who(j)[1];
  }

  lemma WhoIsGood(i: nat)
    requires i < MAX
    ensures GoodSubject(Who(i))
  {
    assert 'A' <= Who(i)[0] <= 'P' && 'A' <= Who(i)[1] <= 'P';
  }

  /** The first `k` of them refused once. */
  function Crowd(k: nat): (r: Slots)
    requires k <= MAX
    ensures |r| == MAX
  {
    seq(MAX, i requires 0 <= i < MAX => if i < k then Some(Entry(Who(i), 1, NOON, false)) else None)
  }

  function ChargeAll(slots: Slots, k: nat): Slots
    requires k <= MAX
  {
    if k == 0 then slots else Charged(ChargeAll(slots, k - 1), Who(k - 1), NOON)
  }

  lemma CrowdSlots(k: nat, s: Subject, now: int)
    requires k <= MAX && NOON <= now < NOON + DECAY_S && forall i :: 0 <= i < k ==> Who(i) != s
    ensures Find(Crowd(k), s) == -1 && Spare(Crowd(k), now) == if k < MAX then k else -1
  {
    hide Who, Spare, Find;
    var slots := Crowd(k);
    assert forall i :: 0 <= i < k ==> !Reusable(slots[i], now);
    assert k < MAX ==> Reusable(slots[k], now);
  }

  lemma {:induction false} CrowdGathers(k: nat)
    requires k <= MAX
    ensures ChargeAll(Crowd(0), k) == Crowd(k)
  {
    hide Who, Find, Spare;
    if k > 0 {
      CrowdGathers(k - 1);
      forall i | 0 <= i < k - 1
        ensures Who(i) != Who(k - 1)
      {
        if Who(i) == Who(k - 1) {
          WhoIsWho(i, k - 1);
        }
      }
      CrowdSlots(k - 1, Who(k - 1), NOON);
      BumpedFresh(Who(k - 1), NOON);
      assert Charged(Crowd(k - 1), Who(k - 1), NOON) == Crowd(k);
    }
  }

  /** The refusals of one identity, one after the other. */
  function ChargeOften(slots: Slots, s: Subject, times: seq<int>): Slots {
    if times == [] then slots
    else Charged(ChargeOften(slots, s, times[..|times| - 1]), s, times[|times| - 1])
  }

  lemma {:induction false} NeverCharged(slots: Slots, s: Subject, times: seq<int>)
    requires forall t :: t in times ==> AllTaken(slots, s, t)
    ensures ChargeOften(slots, s, times) == slots
  {
    hide AllTaken, Charged;
    if times != [] {
      NeverCharged(slots, s, times[..|times| - 1]);
      UnchargedExactlyWhenFull(slots, s, times[|times| - 1]);
    }
  }

  /** The table does fill: 256 acceptable identities refused once each, and for ten
      minutes the refusals of a newcomer, however many, are not charged and it never
      owes a wait. The rate bound needs its charges to find a slot. */
  lemma TableFills(s: Subject, times: seq<int>, now: int)
    requires |s| != 2 && NOON <= now < NOON + DECAY_S
    requires forall t :: t in times ==> NOON <= t < NOON + DECAY_S
    ensures forall i :: 0 <= i < MAX ==> GoodSubject(Who(i))
    ensures var full := ChargeAll(Crowd(0), MAX);
            && AllTaken(full, s, now) && ChargeOften(full, s, times) == full && Owed(full, s, now) == 0
  {
    hide Who, Charged, ChargeAll, ChargeOften, Find, Spare;
    CrowdGathers(MAX);
    forall i | 0 <= i < MAX
      ensures GoodSubject(Who(i)) && Who(i) != s
    {
      WhoIsGood(i);
      assert |Who(i)| == 2 by { TwoLetters(i); }
    }
    var full := Crowd(MAX);
    assert forall t :: NOON <= t < NOON + DECAY_S ==> AllTaken(full, s, t);
    NeverCharged(full, s, times);
    UnchargedExactlyWhenFull(full, s, now);
  }

  lemma TwoLetters(i: nat)
    requires i < MAX
    ensures |Who(i)| == 2
  {
  }
}
