/** The session pool (service/fhsm_service.c:280-371): sessions are opened up to
    a ceiling and lent to one worker at a time; workers without one sleep on a
    condition variable. Bodies under the pool mutex are atomic steps. */
module SessionPool {
  import opened CText

  type Handle = nat

  datatype Slot = Slot(handle: Handle, inUse: bool)

  // ---------------------------------------------------------------- the pool

  /** The first slot that is not lent out. */
  function FirstFree(slots: seq<Slot>, from: nat := 0): (i: int)
    ensures i == -1 || from <= i < |slots|
    ensures i >= 0 ==> !slots[i].inUse && forall j :: from <= j < i ==> slots[j].inUse
    ensures i == -1 ==> forall j :: from <= j < |slots| ==> slots[j].inUse
    decreases |slots| - from
  {
    if from >= |slots| then -1 else if !slots[from].inUse then from else FirstFree(slots, from + 1)
  }

  function IndexOf(slots: seq<Slot>, h: Handle, from: nat := 0): (i: int)
    ensures i == -1 || from <= i < |slots|
    ensures i >= 0 ==> slots[i].handle == h && forall j :: from <= j < i ==> slots[j].handle != h
    ensures i == -1 ==> forall j :: from <= j < |slots| ==> slots[j].handle != h
    decreases |slots| - from
  {
    if from >= |slots| then -1 else if slots[from].handle == h then from else IndexOf(slots, h, from + 1)
  }

  /** One turn of the loop in `pool_acquire`: the pool afterwards, and the session
      lent, if any. `session` is what C_OpenSession would answer. */
  function Lend(slots: seq<Slot>, max: nat, session: Option<Handle>): (seq<Slot>, Option<Handle>) {
    var i := FirstFree(slots);
    if i >= 0 then (slots[i := Slot(slots[i].handle, true)], Some(slots[i].handle))
    else if |slots| < max && session.Some? then (slots + [Slot(session.value, true)], session)
    else (slots, None)
  }

  function GiveBack(slots: seq<Slot>, h: Handle): (r: seq<Slot>)
    ensures |r| == |slots|
  {
    var i := IndexOf(slots, h);
    if i >= 0 then slots[i := Slot(h, false)] else slots
  }

  class Pool {
    var slots: seq<Slot>
    const max: nat

    constructor (max: nat)
      ensures slots == [] && this.max == max
    {
      slots := [];
      this.max := max;
    }

    /** One turn of the acquiring loop; `None` means the caller goes to sleep. */
    method TryAcquire(session: Option<Handle>) returns (lent: Option<Handle>)
      modifies this
      ensures (slots, lent) == Lend(old(slots), max, session)
    {
      var i := 0;
      while i < |slots|
        invariant 0 <= i <= |slots| && slots == old(slots)
        invariant forall j :: 0 <= j < i ==> slots[j].inUse
      {
        if !slots[i].inUse {
          var h := slots[i].handle;
          slots := slots[i := Slot(h, true)];
          return Some(h);
        }
        i := i + 1;
      }
      if |slots| < max && session.Some? {
        slots := slots + [Slot(session.value, true)];
        return session;
      }
      lent := None;
    }

    method Release(h: Handle)
      modifies this
      ensures slots == GiveBack(old(slots), h)
    {
      var i := 0;
      while i < |slots|
        invariant 0 <= i <= |slots| && slots == old(slots)
        invariant forall j :: 0 <= j < i ==> slots[j].handle != h
      {
        if slots[i].handle == h {
          slots := slots[i := Slot(h, false)];
          return;
        }
        i := i + 1;
      }
    }
  }

  // -------------------------------------------------------------- the workers

  datatype Phase = Apart | Holding(h: Handle) | Asleep | Signalled

  datatype State = State(slots: seq<Slot>, max: nat, workers: seq<Phase>)

  datatype Step =
    | Acquire(t: nat, session: Option<Handle>)    // on arrival, or after a wake-up
    | Release(t: nat, woken: nat)                // the signal wakes sleeper `woken`, if any sleeps
    | Stir(t: nat)                               // spurious wake-up

  predicate SomeAsleep(ws: seq<Phase>) { exists i :: 0 <= i < |ws| && ws[i].Asleep? }

  predicate Enabled(s: State, step: Step) {
    match step
    case Acquire(t, session) =>
      && t < |s.workers| && (s.workers[t].Apart? || s.workers[t].Signalled?)
      // the module hands out a handle that is not already open
      && (session.Some? ==> IndexOf(s.slots, session.value) < 0)
    case Release(t, woken) =>
      && t < |s.workers| && s.workers[t].Holding?
      && (SomeAsleep(s.workers) ==> woken < |s.workers| && s.workers[woken].Asleep?)
    case Stir(t) => t < |s.workers| && s.workers[t].Asleep?
  }

  function Apply(s: State, step: Step): State
    requires Enabled(s, step)
  {
    match step
    case Acquire(t, session) =>
      var (slots, lent) := Lend(s.slots, s.max, session);
      s.(slots := slots, workers := s.workers[t := if lent.Some? then Holding(lent.value) else Asleep])
    case Release(t, woken) =>
      var ws := if SomeAsleep(s.workers) then s.workers[woken := Signalled] else s.workers;
      s.(slots := GiveBack(s.slots, s.workers[t].h), workers := ws[t := Apart])
    case Stir(t) => s.(workers := s.workers[t := Signalled])
  }

  predicate Valid(s: State, steps: seq<Step>)
    decreases |steps|
  {
    steps == [] || (Enabled(s, steps[0]) && Valid(Apply(s, steps[0]), steps[1..]))
  }

  function Run(s: State, steps: seq<Step>): State
    requires Valid(s, steps)
    decreases |steps|
  {
    if steps == [] then s else Run(Apply(s, steps[0]), steps[1..])
  }

  function Init(max: nat, workers: nat): State { State([], max, seq(workers, i => Apart)) }

  // ------------------------------------------------------------- counting

  function Lent(slots: seq<Slot>): (n: nat)
    ensures n <= |slots|
  {
    if slots == [] then 0 else (if slots[0].inUse then 1 else 0) + Lent(slots[1..])
  }

  lemma {:induction false} LentUpdate(slots: seq<Slot>, i: nat, x: Slot)
    requires i < |slots|
    ensures Lent(slots[i := x]) == Lent(slots) - (if slots[i].inUse then 1 else 0) + (if x.inUse then 1 else 0)
  {
    if i == 0 {
      assert slots[i := x][1..] == slots[1..];
    } else {
      assert slots[i := x][1..] == slots[1..][i - 1 := x];
      LentUpdate(slots[1..], i - 1, x);
    }
  }

  lemma {:induction false} LentAppend(slots: seq<Slot>, x: Slot)
    ensures Lent(slots + [x]) == Lent(slots) + if x.inUse then 1 else 0
  {
    if slots == [] {
      assert slots + [x] == [x];
    } else {
      assert (slots + [x])[1..] == slots[1..] + [x];
      LentAppend(slots[1..], x);
    }
  }

  lemma {:induction false} LentAll(slots: seq<Slot>)
    requires forall i :: 0 <= i < |slots| ==> slots[i].inUse
    ensures Lent(slots) == |slots|
  {
    if slots != [] {
      LentAll(slots[1..]);
    }
  }

  datatype Tally = Tally(holding: nat, signalled: nat)

  function TallyOf(ws: seq<Phase>): (n: Tally)
    ensures n.holding + n.signalled <= |ws|
  {
    if ws == [] then Tally(0, 0)
    else
      var r := TallyOf(ws[1..]);
      Tally(r.holding + Holder(ws[0]), r.signalled + Woken(ws[0]))
  }

  function Holder(p: Phase): nat { if p.Holding? then 1 else 0 }

  function Woken(p: Phase): nat { if p.Signalled? then 1 else 0 }

  lemma {:induction false} TallyUpdate(ws: seq<Phase>, i: nat, p: Phase)
    requires i < |ws|
    ensures TallyOf(ws[i := p]).holding == TallyOf(ws).holding - Holder(ws[i]) + Holder(p)
    ensures TallyOf(ws[i := p]).signalled == TallyOf(ws).signalled - Woken(ws[i]) + Woken(p)
    ensures Holder(ws[i]) <= TallyOf(ws).holding && Woken(ws[i]) <= TallyOf(ws).signalled
  {
    if i == 0 {
      assert ws[i := p][1..] == ws[1..];
    } else {
      assert ws[i := p][1..] == ws[1..][i - 1 := p];
      TallyUpdate(ws[1..], i - 1, p);
    }
  }

  // -------------------------------------------------------------- invariant

  predicate DistinctHandles(slots: seq<Slot>) {
    forall i, j :: 0 <= i < |slots| && 0 <= j < |slots| && slots[i].handle == slots[j].handle ==> i == j
  }

  predicate OutOnLoan(slots: seq<Slot>, h: Handle) {
    IndexOf(slots, h) >= 0 && slots[IndexOf(slots, h)].inUse
  }

  /** No two workers hold the same session. */
  predicate LentOnce(ws: seq<Phase>) {
    forall t, u :: 0 <= t < |ws| && 0 <= u < |ws| && ws[t].Holding? && ws[u].Holding? && ws[t].h == ws[u].h ==> t == u
  }

  predicate LoanInv(s: State) {
    && DistinctHandles(s.slots) && |s.slots| <= s.max
    && (forall t :: 0 <= t < |s.workers| && s.workers[t].Holding? ==> OutOnLoan(s.slots, s.workers[t].h))
    && LentOnce(s.workers)
    && Lent(s.slots) == TallyOf(s.workers).holding
  }

  /** While anybody sleeps, free slots do not outnumber wake-ups on their way. */
  predicate WakeInv(s: State) {
    SomeAsleep(s.workers) ==> |s.slots| - Lent(s.slots) <= TallyOf(s.workers).signalled
  }

  predicate Inv(s: State) { LoanInv(s) && WakeInv(s) }

  lemma InitInv(max: nat, workers: nat)
    ensures Inv(Init(max, workers))
  {
    NobodyHolds(Init(max, workers).workers);
  }

  lemma {:induction false} NobodyHolds(ws: seq<Phase>)
    requires forall i :: 0 <= i < |ws| ==> ws[i].Apart?
    ensures TallyOf(ws) == Tally(0, 0)
  {
    if ws != [] {
      NobodyHolds(ws[1..]);
    }
  }

  /** A turn of the loop: one more session lent, and one fewer free unless the pool grew ... */
  lemma LendCounts(slots: seq<Slot>, max: nat, session: Option<Handle>)
    requires |slots| <= max
    ensures var (r, lent) := Lend(slots, max, session);
            && |r| <= max
            && Lent(r) == Lent(slots) + (if lent.Some? then 1 else 0)
            && (lent.Some? ==> Lent(r) == |r| || |r| == |slots|)
            && (lent.None? ==> r == slots && Lent(slots) == |slots| && (|slots| < max ==> session.None?))
  {
    var i := FirstFree(slots);
    if i >= 0 {
      LentUpdate(slots, i, Slot(slots[i].handle, true));
    } else {
      LentAll(slots);
      if |slots| < max && session.Some? {
        LentAppend(slots, Slot(session.value, true));
      }
    }
  }

  /** ... which was not on loan before, and no other loan is disturbed. */
  lemma LendLoans(slots: seq<Slot>, max: nat, session: Option<Handle>)
    requires DistinctHandles(slots) && (session.Some? ==> IndexOf(slots, session.value) < 0)
    ensures var (r, lent) := Lend(slots, max, session);
            && DistinctHandles(r)
            && (forall h: Handle :: OutOnLoan(slots, h) ==> OutOnLoan(r, h))
            && (lent.Some? ==> !OutOnLoan(slots, lent.value) && OutOnLoan(r, lent.value))
  {
    var i := FirstFree(slots);
    var (r, lent) := Lend(slots, max, session);
    forall h: Handle | OutOnLoan(slots, h)
      ensures OutOnLoan(r, h)
    {
      LoanAt(r, IndexOf(slots, h));
    }
    if lent.Some? {
      LoanAt(r, if i >= 0 then i else |slots|);
    }
  }

  lemma LoanAt(slots: seq<Slot>, i: nat)
    requires DistinctHandles(slots) && i < |slots| && slots[i].inUse
    ensures OutOnLoan(slots, slots[i].handle)
  {
    assert IndexOf(slots, slots[i].handle) == i;
  }

  lemma GiveBackEffect(slots: seq<Slot>, h: Handle, other: Handle)
    requires DistinctHandles(slots) && OutOnLoan(slots, h)
    ensures var r := GiveBack(slots, h);
            && DistinctHandles(r)
            && (other != h && OutOnLoan(slots, other) ==> OutOnLoan(r, other))
            && Lent(r) == Lent(slots) - 1
  {
    var i, r := IndexOf(slots, h), GiveBack(slots, h);
    LentUpdate(slots, i, Slot(h, false));
    assert forall j :: 0 <= j < |slots| ==> r[j].handle == slots[j].handle;
    if other != h && OutOnLoan(slots, other) {
      assert r[IndexOf(slots, other)] == slots[IndexOf(slots, other)];
    }
  }

  lemma AcquireKeeps(s: State, t: nat, session: Option<Handle>)
    requires Inv(s) && Enabled(s, Acquire(t, session))
    ensures Inv(Apply(s, Acquire(t, session)))
  {
    hide Lend, IndexOf, DistinctHandles, Lent, TallyOf, OutOnLoan;
    var s' := Apply(s, Acquire(t, session));
    var (slots, lent) := Lend(s.slots, s.max, session);
    TallyUpdate(s.workers, t, s'.workers[t]);
    LendCounts(s.slots, s.max, session);
    LendLoans(s.slots, s.max, session);
    if SomeAsleep(s'.workers) && lent.Some? {
      var i :| 0 <= i < |s'.workers| && s'.workers[i].Asleep?;
      assert s.workers[i].Asleep?;
    }
  }

  lemma ReleaseKeeps(s: State, t: nat, woken: nat)
    requires Inv(s) && Enabled(s, Release(t, woken))
    ensures Inv(Apply(s, Release(t, woken)))
  {
    hide GiveBack, IndexOf, DistinctHandles, Lent, TallyOf, OutOnLoan;
    var s', h := Apply(s, Release(t, woken)), s.workers[t].h;
    var ws := if SomeAsleep(s.workers) then s.workers[woken := Signalled] else s.workers;
    if SomeAsleep(s.workers) {
      TallyUpdate(s.workers, woken, Signalled);
    }
    TallyUpdate(ws, t, Apart);
    GiveBackEffect(s.slots, h, 0);
    forall u | 0 <= u < |s'.workers| && s'.workers[u].Holding?
      ensures OutOnLoan(s'.slots, s'.workers[u].h)
    {
      assert s.workers[u] == s'.workers[u];
      GiveBackEffect(s.slots, h, s.workers[u].h);
    }
    if SomeAsleep(s'.workers) {
      var i :| 0 <= i < |s'.workers| && s'.workers[i].Asleep?;
      assert s.workers[i].Asleep?;
    }
  }

  lemma StirKeeps(s: State, t: nat)
    requires Inv(s) && Enabled(s, Stir(t))
    ensures Inv(Apply(s, Stir(t)))
  {
    hide IndexOf, DistinctHandles, Lent, TallyOf, OutOnLoan;
    TallyUpdate(s.workers, t, Signalled);
    assert s.workers[t].Asleep?;
  }

  lemma StepKeeps(s: State, step: Step)
    requires Inv(s) && Enabled(s, step)
    ensures Inv(Apply(s, step))
  {
    hide Inv, Apply;
    match step
    case Acquire(t, session) => AcquireKeeps(s, t, session);
    case Release(t, woken) => ReleaseKeeps(s, t, woken);
    case Stir(t) => StirKeeps(s, t);
  }

  lemma {:induction false} RunKeeps(s: State, steps: seq<Step>)
    requires Inv(s) && Valid(s, steps)
    ensures Inv(Run(s, steps))
    decreases |steps|
  {
    hide Inv, Apply;
    if steps != [] {
      StepKeeps(s, steps[0]);
      RunKeeps(Apply(s, steps[0]), steps[1..]);
    }
  }

  // ---------------------------------------------------------------- results

  /** Pool safety and no lost wake-up, in every interleaving: no session is lent
      to two workers, the ceiling holds, and while a worker sleeps free slots never
      outnumber the workers already woken for them. */
  lemma PoolSafety(max: nat, workers: nat, steps: seq<Step>)
    requires Valid(Init(max, workers), steps)
    ensures var s := Run(Init(max, workers), steps);
            && LentOnce(s.workers)
            && |s.slots| <= s.max
            && (SomeAsleep(s.workers) ==> |s.slots| - Lent(s.slots) <= TallyOf(s.workers).signalled)
  {
    InitInv(max, workers);
    RunKeeps(Init(max, workers), steps);
  }

  /** Every attempt to open a session succeeds. */
  predicate OpensSucceed(steps: seq<Step>) {
    forall i :: 0 <= i < |steps| && steps[i].Acquire? ==> steps[i].session.Some?
  }

  predicate Awake(ws: seq<Phase>) { forall i :: 0 <= i < |ws| ==> !ws[i].Asleep? }

  lemma {:induction false} AwakeRun(s: State, steps: seq<Step>)
    requires Inv(s) && Valid(s, steps) && OpensSucceed(steps) && s.max >= |s.workers| && Awake(s.workers)
    ensures Awake(Run(s, steps).workers)
    decreases |steps|
  {
    hide Inv, TallyOf, Lent;
    if steps != [] {
      StepKeeps(s, steps[0]);
      if steps[0].Acquire? {
        NeverWaits(s, steps[0].t, steps[0].session);
      }
      assert forall i :: 0 <= i < |steps[1..]| ==> steps[1..][i] == steps[i + 1];
      AwakeRun(Apply(s, steps[0]), steps[1..]);
    }
  }

  lemma NeverWaits(s: State, t: nat, session: Option<Handle>)
    requires Inv(s) && Enabled(s, Acquire(t, session)) && session.Some? && s.max >= |s.workers|
    ensures Apply(s, Acquire(t, session)).workers[t].Holding?
  {
    hide IndexOf, DistinctHandles, OutOnLoan;
    LendCounts(s.slots, s.max, session);
    SomebodyElse(s.workers, t);
  }

  lemma {:induction false} SomebodyElse(ws: seq<Phase>, t: nat)
    requires t < |ws| && !ws[t].Holding?
    ensures TallyOf(ws).holding < |ws|
  {
    if t > 0 {
      SomebodyElse(ws[1..], t - 1);
    }
  }

  /** With a ceiling of at least the worker count, as `main` insists on, and
      opens that succeed, no acquire ever waits. */
  lemma NoAcquireWaits(max: nat, workers: nat, steps: seq<Step>)
    requires Valid(Init(max, workers), steps) && OpensSucceed(steps) && max >= workers
    ensures Awake(Run(Init(max, workers), steps).workers)
  {
    InitInv(max, workers);
    AwakeRun(Init(max, workers), steps);
  }

  // ----------------------------------------------------- who wakes a sleeper

  predicate SomeHolding(ws: seq<Phase>) { exists i :: 0 <= i < |ws| && ws[i].Holding? }

  predicate SomeSignalled(ws: seq<Phase>) { exists i :: 0 <= i < |ws| && ws[i].Signalled? }

  /** The module opened a session for somebody. */
  predicate SomeOpenSucceeds(steps: seq<Step>) {
    exists i :: 0 <= i < |steps| && steps[i].Acquire? && steps[i].session.Some?
  }

  predicate NobodyStirs(steps: seq<Step>) {
    forall i :: 0 <= i < |steps| ==> !steps[i].Stir?
  }

  lemma {:induction false} NoneTallied(ws: seq<Phase>)
    requires forall i :: 0 <= i < |ws| ==> !(ws[i].Holding? || ws[i].Signalled?)
    ensures TallyOf(ws) == Tally(0, 0)
  {
    if ws != [] {
      NoneTallied(ws[1..]);
    }
  }

  lemma {:induction false} HolderTallied(ws: seq<Phase>, i: nat)
    requires i < |ws| && ws[i].Holding?
    ensures TallyOf(ws).holding > 0
  {
    if i > 0 {
      HolderTallied(ws[1..], i - 1);
    }
  }

  /** The pool has a session from the first open that succeeds, and for good. */
  lemma {:induction false} OpenedIff(s: State, steps: seq<Step>)
    requires Valid(s, steps)
    ensures Run(s, steps).slots != [] <==> s.slots != [] || (s.max > 0 && SomeOpenSucceeds(steps))
    decreases |steps|
  {
    if steps != [] {
      var s', rest := Apply(s, steps[0]), steps[1..];
      OpenedIff(s', rest);
      assert forall i :: 0 <= i < |rest| ==> rest[i] == steps[i + 1];
      assert s'.slots != [] <==>
             s.slots != [] || (s.max > 0 && steps[0].Acquire? && steps[0].session.Some?);
      if SomeOpenSucceeds(steps) && !(steps[0].Acquire? && steps[0].session.Some?) {
        var i :| 0 <= i < |steps| && steps[i].Acquire? && steps[i].session.Some?;
        assert rest[i - 1] == steps[i];
      }
    }
  }

  /** While no session is open only a spurious wake-up gets anybody up. */
  lemma {:induction false} QuietWhileEmpty(s: State, steps: seq<Step>)
    requires Inv(s) && Valid(s, steps) && NobodyStirs(steps)
    requires s.slots == [] ==> !SomeSignalled(s.workers)
    ensures Run(s, steps).slots == [] ==> !SomeSignalled(Run(s, steps).workers)
    decreases |steps|
  {
    hide TallyOf, Lent, DistinctHandles;
    if steps != [] {
      StepKeeps(s, steps[0]);
      assert forall i :: 0 <= i < |steps[1..]| ==> steps[1..][i] == steps[i + 1];
      QuietWhileEmpty(Apply(s, steps[0]), steps[1..]);
    }
  }

  /** A sleeper that nobody already up will relieve has a worker holding a session
      to wake it if and only if some open has succeeded; in every interleaving,
      whatever opens fail. */
  lemma SleeperHasWakerIff(max: nat, workers: nat, steps: seq<Step>)
    requires Valid(Init(max, workers), steps) && SomeAsleep(Run(Init(max, workers), steps).workers)
    ensures var ws := Run(Init(max, workers), steps).workers;
            !SomeSignalled(ws) ==> (SomeHolding(ws) <==> max > 0 && SomeOpenSucceeds(steps))
  {
    var s := Run(Init(max, workers), steps);
    InitInv(max, workers);
    RunKeeps(Init(max, workers), steps);
    OpenedIff(Init(max, workers), steps);
    if !SomeHolding(s.workers) && !SomeSignalled(s.workers) {
      NoneTallied(s.workers);
    }
    if i: nat :| i < |s.workers| && s.workers[i].Holding? {
      HolderTallied(s.workers, i);
    }
  }

  /** Without spurious wake-ups that is: if and only if some open has succeeded. */
  lemma SleeperHasWaker(max: nat, workers: nat, steps: seq<Step>)
    requires Valid(Init(max, workers), steps) && NobodyStirs(steps)
    requires SomeAsleep(Run(Init(max, workers), steps).workers)
    ensures var ws := Run(Init(max, workers), steps).workers;
            SomeHolding(ws) || SomeSignalled(ws) <==> max > 0 && SomeOpenSucceeds(steps)
  {
    hide Inv;
    SleeperHasWakerIff(max, workers, steps);
    InitInv(max, workers);
    OpenedIff(Init(max, workers), steps);
    QuietWhileEmpty(Init(max, workers), steps);
  }

  /** The failing case: the first open of all fails, and the worker sleeps with
      nobody left to wake it. */
  lemma FailedOpenStrandsAWorker(max: nat)
    requires max > 0
    ensures var steps := [Acquire(0, None)];
            && Valid(Init(max, 1), steps)
            && var s := Run(Init(max, 1), steps);
               s.workers == [Asleep] && s.slots == []
  {
    var s0, step := Init(max, 1), Acquire(0, None);
    var steps := [step];
    assert Enabled(s0, step);
    assert steps[1..] == [];
    assert Apply(s0, step).workers == [Asleep];
    assert Run(Apply(s0, step), steps[1..]) == Apply(s0, step);
  }
}
