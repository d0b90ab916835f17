/** The entry lock with deferred release (src/fhsm_apilock.c:55-178): a
    reader/writer lock around every API call, a per-thread mode that makes nested
    calls no-ops, and a list of retired values drained only under exclusive hold.
    Each stretch of code between two lock operations is one atomic step. */
module ApiLock {
  import opened CText

  type Value = nat

  /** Where a thread is. `nest` counts the inner guards that took nothing. */
  datatype Pc =
    | Outside
    | InCall(exclusive: bool, nest: nat)
    | Parking(nest: nat, v: Value)            // shared, node allocated, not yet on the list
    | Entered                                 // holds the lock exclusively, before detaching the list
    | EntryRelease(todo: seq<Value>)          // releasing the detached list at entry
    | Unlocked                                // shared exit, before `have_retired`
    | SawRetired                              // before `trywrlock`
    | Relocked                                // `trywrlock` succeeded, before detaching the list
    | ExitRelease(todo: seq<Value>)

  datatype State = State(
    readers: set<nat>, writer: Option<nat>,
    retired: seq<Value>,
    pcs: seq<Pc>,
    store: set<Value>,            // values linked in the token store, which a call may borrow
    reach: seq<set<Value>>,       // per thread: all it may have borrowed since it got the lock
    ever: set<Value>,             // history: every value that ever existed
    handed: seq<Value>,           // history, latest first: values handed to `fhsm_api_free_value`
    released: seq<Value>,         // history, latest first: values zeroised and freed
    leaked: seq<Value>)           // history, latest first: values whose parking allocation failed

  datatype Step =
    | EnterShared(t: nat)
    | EnterExclusive(t: nat)
    | Detach(t: nat)
    | ReleaseOne(t: nat)
    | Ready(t: nat)
    | NestEnter(t: nat)
    | NestLeave(t: nat)
    | Create(t: nat, v: Value)
    | FreeValue(t: nat, v: Value, roomy: bool)
    | Push(t: nat)
    | LeaveShared(t: nat)
    | LeaveExclusive(t: nat)
    | CheckRetired(t: nat)
    | TryLock(t: nat)
    | FreeOutside(t: nat, v: Value)           // no API call: a tool driving the store directly

  function Init(threads: nat, store: set<Value>): State {
    State({}, None, [], seq(threads, i => Outside), store, seq(threads, i => {}),
          store, [], [], [])
  }

  predicate Free(s: State) { s.writer.None? && s.readers == {} }

  predicate Enabled(s: State, step: Step) {
    && |s.reach| == |s.pcs| && step.t < |s.pcs|
    && var pc := s.pcs[step.t];
       match step
       case EnterShared(t) => pc.Outside? && s.writer.None?
       case EnterExclusive(t) => pc.Outside? && Free(s)
       case Detach(t) => pc.Entered? || pc.Relocked?
       case ReleaseOne(t) => (pc.EntryRelease? || pc.ExitRelease?) && pc.todo != []
       case Ready(t) => (pc.EntryRelease? || pc.ExitRelease?) && pc.todo == []
       case NestEnter(t) => pc.InCall?
       case NestLeave(t) => pc.InCall? && pc.nest > 0
       case Create(t, v) => pc.InCall? && v !in s.ever
       case FreeValue(t, v, _) => pc.InCall? && v in s.store
       case Push(t) => pc.Parking?
       case LeaveShared(t) => pc == InCall(false, 0)
       case LeaveExclusive(t) => pc == InCall(true, 0)
       case CheckRetired(t) => pc.Unlocked?
       case TryLock(t) => pc.SawRetired?
       case FreeOutside(t, v) => pc.Outside? && v in s.store
  }

  predicate Holds(pc: Pc) { pc.InCall? || pc.Parking? }

  /** A new value in the store comes within reach of every call in flight. */
  function Widen(s: State, v: Value): (r: seq<set<Value>>)
    requires |s.reach| == |s.pcs|
    ensures |r| == |s.pcs|
  {
    seq(|s.pcs|, i requires 0 <= i < |s.pcs| => if Holds(s.pcs[i]) then s.reach[i] + {v} else s.reach[i])
  }

  function Apply(s: State, step: Step): State
    requires Enabled(s, step)
  {
    var t := step.t;
    var pc := s.pcs[t];
    match step
    case EnterShared(_) =>
      s.(readers := s.readers + {t}, pcs := s.pcs[t := InCall(false, 0)], reach := s.reach[t := s.store])
    case EnterExclusive(_) => s.(writer := Some(t), pcs := s.pcs[t := Entered])
    case Detach(_) =>
      s.(retired := [], pcs := s.pcs[t := if pc.Entered? then EntryRelease(s.retired) else ExitRelease(s.retired)])
    case ReleaseOne(_) =>
      s.(released := [pc.todo[0]] + s.released,
         pcs := s.pcs[t := if pc.EntryRelease? then EntryRelease(pc.todo[1..]) else ExitRelease(pc.todo[1..])])
    case Ready(_) =>
      if pc.EntryRelease? then s.(pcs := s.pcs[t := InCall(true, 0)], reach := s.reach[t := s.store])
      else s.(writer := None, pcs := s.pcs[t := Outside])
    case NestEnter(_) => s.(pcs := s.pcs[t := InCall(pc.exclusive, pc.nest + 1)])
    case NestLeave(_) => s.(pcs := s.pcs[t := InCall(pc.exclusive, pc.nest - 1)])
    case Create(_, v) => s.(store := s.store + {v}, ever := s.ever + {v}, reach := Widen(s, v))
    case FreeValue(_, v, roomy) =>
      var s1 := s.(store := s.store - {v}, handed := [v] + s.handed);
      if pc.exclusive then s1.(released := [v] + s.released)
      else if roomy then s1.(pcs := s.pcs[t := Parking(pc.nest, v)])
      else s1.(leaked := [v] + s.leaked)
    case Push(_) => s.(retired := [pc.v] + s.retired, pcs := s.pcs[t := InCall(false, pc.nest)])
    case LeaveShared(_) => s.(readers := s.readers - {t}, pcs := s.pcs[t := Unlocked], reach := s.reach[t := {}])
    case LeaveExclusive(_) => s.(writer := None, pcs := s.pcs[t := Outside], reach := s.reach[t := {}])
    case CheckRetired(_) => s.(pcs := s.pcs[t := if s.retired != [] then SawRetired else Outside])
    case TryLock(_) =>
      if Free(s) then s.(writer := Some(t), pcs := s.pcs[t := Relocked]) else s.(pcs := s.pcs[t := Outside])
    case FreeOutside(_, v) =>
      s.(store := s.store - {v}, handed := [v] + s.handed, released := [v] + s.released)
  }

  predicate Valid(s: State, steps: seq<Step>)
    decreases |steps|
  {
    steps == [] || (Enabled(s, steps[0]) && Valid(Apply(s, steps[0]), steps[1..]))
  }

  function Run(s: State, steps: seq<Step>): State
    requires Valid(s, steps)
    decreases |steps|
  {
    if steps == [] then s else Run(Apply(s, steps[0]), steps[1..])
  }

  // -------------------------------------------------------------- invariant

  predicate IsReader(pc: Pc) { pc.Parking? || (pc.InCall? && !pc.exclusive) }

  predicate IsWriter(pc: Pc) {
    pc.Entered? || pc.EntryRelease? || pc.Relocked? || pc.ExitRelease? || (pc.InCall? && pc.exclusive)
  }

  /** The lock is held by exactly the threads whose position says so. */
  ghost predicate LockInv(s: State) {
    && |s.reach| == |s.pcs|
    && (forall u :: u in s.readers <==> 0 <= u < |s.pcs| && IsReader(s.pcs[u]))
    && (forall u :: 0 <= u < |s.pcs| ==> (s.writer == Some(u) <==> IsWriter(s.pcs[u])))
    && (s.writer.Some? ==> s.writer.value < |s.pcs| && s.readers == {})
    && (forall u :: 0 <= u < |s.pcs| && !Holds(s.pcs[u]) ==> s.reach[u] == {})
  }

  /** The thread may still drain the list, or is in a call that will come to it. */
  predicate Minds(pc: Pc) { IsReader(pc) || pc.Unlocked? || pc.SawRetired? || pc.Entered? || pc.Relocked? }

  predicate RestInv(s: State) {
    && (s.retired != [] ==> exists u :: 0 <= u < |s.pcs| && Minds(s.pcs[u]))
    && (forall u :: 0 <= u < |s.pcs| && IsWriter(s.pcs[u]) && !Minds(s.pcs[u]) ==> s.retired == [])
  }

  function Count(vs: seq<Value>, v: Value): nat {
    if vs == [] then 0 else (if vs[0] == v then 1 else 0) + Count(vs[1..], v)
  }

  lemma CountCons(vs: seq<Value>, x: Value, v: Value)
    ensures Count([x] + vs, v) == (if x == v then 1 else 0) + Count(vs, v)
  {
    assert ([x] + vs)[1..] == vs;
  }

  lemma {:induction false} CountMember(vs: seq<Value>, v: Value)
    ensures Count(vs, v) > 0 <==> v in vs
  {
    if vs != [] {
      CountMember(vs[1..], v);
    }
  }

  /** Copies of `v` on their way: parked by a shared call, or detached for release. */
  function Hand(pc: Pc, v: Value): nat {
    match pc
    case Parking(_, x) => if x == v then 1 else 0
    case EntryRelease(todo) => Count(todo, v)
    case ExitRelease(todo) => Count(todo, v)
    case _ => 0
  }

  function Hands(pcs: seq<Pc>, v: Value): nat {
    if pcs == [] then 0 else Hand(pcs[0], v) + Hands(pcs[1..], v)
  }

  /** Each copy of a value handed in is in exactly one place. */
  predicate Balanced(s: State, v: Value) {
    Count(s.handed, v) == Count(s.released, v) + Count(s.retired, v) + Hands(s.pcs, v) + Count(s.leaked, v)
  }

  /** A value is handed in at most once, and not while it is in the store. */
  ghost predicate FreshInv(s: State) {
    && (forall v :: Count(s.handed, v) <= 1)
    && (forall v :: v in s.handed ==> v in s.ever && v !in s.store)
    && s.store <= s.ever
  }

  ghost predicate ValueInv(s: State) {
    (forall v :: Balanced(s, v)) && FreshInv(s)
  }

  ghost predicate Inv(s: State) { LockInv(s) && RestInv(s) && ValueInv(s) }

  lemma {:induction false} HandsUpdate(pcs: seq<Pc>, t: nat, pc: Pc, v: Value)
    requires t < |pcs|
    ensures Hands(pcs[t := pc], v) + Hand(pcs[t], v) == Hands(pcs, v) + Hand(pc, v)
  {
    var pcs' := pcs[t := pc];
    if t == 0 {
      assert pcs'[1..] == pcs[1..];
    } else {
      assert pcs'[1..] == pcs[1..][t - 1 := pc];
      HandsUpdate(pcs[1..], t - 1, pc, v);
    }
  }

  lemma {:induction false} HandsOfIdle(pcs: seq<Pc>, v: Value)
    requires forall u :: 0 <= u < |pcs| ==> pcs[u].Outside?
    ensures Hands(pcs, v) == 0
  {
    if pcs != [] {
      HandsOfIdle(pcs[1..], v);
    }
  }

  lemma InitInv(threads: nat, store: set<Value>)
    ensures Inv(Init(threads, store))
  {
    var s := Init(threads, store);
    forall v
      ensures Balanced(s, v)
    {
      HandsOfIdle(s.pcs, v);
    }
  }

  predicate TakesOrGives(step: Step) {
    || step.EnterShared? || step.EnterExclusive? || step.LeaveShared?
    || step.LeaveExclusive? || step.TryLock? || step.Ready?
  }

  lemma LockHandover(s: State, step: Step)
    requires LockInv(s) && Enabled(s, step) && TakesOrGives(step)
    ensures LockInv(Apply(s, step))
  {
  }

  lemma LockAndCreate(s: State, t: nat, v: Value)
    requires LockInv(s) && Enabled(s, Create(t, v))
    ensures LockInv(Apply(s, Create(t, v)))
  {
  }

  lemma LockUntouched(s: State, step: Step)
    requires LockInv(s) && Enabled(s, step) && !TakesOrGives(step) && !step.Create?
    ensures LockInv(Apply(s, step))
  {
    hide Widen;
  }

  lemma LockStep(s: State, step: Step)
    requires LockInv(s) && Enabled(s, step)
    ensures LockInv(Apply(s, step))
  {
    hide LockInv, Apply;
    if TakesOrGives(step) {
      LockHandover(s, step);
    } else if step.Create? {
      LockAndCreate(s, step.t, step.v);
    } else {
      LockUntouched(s, step);
    }
  }

  /** Somebody goes on minding a list that stays non-empty. */
  lemma RestStep(s: State, step: Step)
    requires LockInv(s) && RestInv(s) && Enabled(s, step)
    ensures RestInv(Apply(s, step))
  {
    var s', t := Apply(s, step), step.t;
    if s'.retired != [] {
      if Minds(s'.pcs[t]) {
      } else if step.TryLock? {
        FailedTryIsMinded(s, t);
      } else {
        var u :| 0 <= u < |s.pcs| && Minds(s.pcs[u]);
        assert u != t;
        assert s'.pcs[u] == s.pcs[u];
      }
    }
  }

  /** `trywrlock` fails only against a holder, and every holder either minds the
      list or has just emptied it. */
  lemma FailedTryIsMinded(s: State, t: nat)
    requires LockInv(s) && RestInv(s) && Enabled(s, TryLock(t)) && !Free(s) && s.retired != []
    ensures exists u :: 0 <= u < |s.pcs| && Minds(Apply(s, TryLock(t)).pcs[u])
  {
    var u;
    if s.writer.Some? {
      u := s.writer.value;
      assert IsWriter(s.pcs[u]);
    } else {
      u :| u in s.readers;
    }
    assert Minds(s.pcs[u]) && u != t;
    assert Apply(s, TryLock(t)).pcs[u] == s.pcs[u];
  }

  /** What one step does to the copies of `v`: it hands some in, and moves some
      into the hands of `t`, onto the list, out to release or leak. */
  lemma Moves(s: State, s': State, t: nat, v: Value)
    requires Balanced(s, v) && t < |s.pcs| && |s'.pcs| == |s.pcs| && s'.pcs == s.pcs[t := s'.pcs[t]]
    requires Count(s'.handed, v) + Count(s.released, v) + Count(s.retired, v) + Hand(s.pcs[t], v) + Count(s.leaked, v)
          == Count(s.handed, v)
             + Count(s'.released, v) + Count(s'.retired, v) + Hand(s'.pcs[t], v) + Count(s'.leaked, v)
    ensures Balanced(s', v)
  {
    HandsUpdate(s.pcs, t, s'.pcs[t], v);
  }

  /** No step loses or duplicates a value that was handed in. */
  lemma BalanceStep(s: State, step: Step, v: Value)
    requires Balanced(s, v) && Enabled(s, step)
    ensures Balanced(Apply(s, step), v)
  {
    hide Balanced;
    var s', t := Apply(s, step), step.t;
    var pc := s.pcs[t];
    assert s'.pcs == s.pcs[t := s'.pcs[t]];
    match step {
      case ReleaseOne(_) => CountCons(s.released, pc.todo[0], v);
      case Push(_) => CountCons(s.retired, pc.v, v);
      case FreeValue(_, x, _) =>
        CountCons(s.handed, x, v);
        CountCons(s.released, x, v);
        CountCons(s.leaked, x, v);
      case FreeOutside(_, x) =>
        CountCons(s.handed, x, v);
        CountCons(s.released, x, v);
      case _ =>
    }
    Moves(s, s', t, v);
  }

  lemma FreshStep(s: State, step: Step)
    requires FreshInv(s) && Enabled(s, step)
    ensures FreshInv(Apply(s, step))
  {
    if step.FreeValue? || step.FreeOutside? {
      CountMember(s.handed, step.v);
      forall v
        ensures Count([step.v] + s.handed, v) <= 1
      {
        CountCons(s.handed, step.v, v);
      }
    }
  }

  lemma ValueStep(s: State, step: Step)
    requires ValueInv(s) && Enabled(s, step)
    ensures ValueInv(Apply(s, step))
  {
    hide Apply, Balanced, FreshInv;
    forall v
      ensures Balanced(Apply(s, step), v)
    {
      BalanceStep(s, step, v);
    }
    FreshStep(s, step);
  }

  lemma StepKeeps(s: State, step: Step)
    requires Inv(s) && Enabled(s, step)
    ensures Inv(Apply(s, step))
  {
    hide Apply, LockInv, RestInv, ValueInv;
    LockStep(s, step);
    RestStep(s, step);
    ValueStep(s, step);
  }

  lemma {:induction false} RunKeeps(s: State, steps: seq<Step>)
    requires Inv(s) && Valid(s, steps)
    ensures Inv(Run(s, steps))
    decreases |steps|
  {
    hide Inv, Apply;
    if steps != [] {
      StepKeeps(s, steps[0]);
      RunKeeps(Apply(s, steps[0]), steps[1..]);
    }
  }

  // ---------------------------------------------------------------- results

  /** `v` is zeroised and freed by this step. */
  predicate Releases(s: State, step: Step, v: Value)
    requires Enabled(s, step)
  {
    Count(Apply(s, step).released, v) > Count(s.released, v)
  }

  /** Another call in flight may have borrowed `v`. */
  predicate Borrowable(s: State, v: Value, t: nat) {
    exists u :: 0 <= u < |s.reach| && u != t && v in s.reach[u]
  }

  /** No free under a borrower. In every interleaving of shared, exclusive and
      nested calls, no step of a call, nor of the drain at a shared exit, releases
      a value another call in flight may hold: that takes a free outside any call. */
  lemma NoFreeUnderBorrower(threads: nat, store: set<Value>, steps: seq<Step>, step: Step, v: Value)
    requires Valid(Init(threads, store), steps)
    requires Enabled(Run(Init(threads, store), steps), step)
    ensures var s := Run(Init(threads, store), steps);
            Releases(s, step, v) && Borrowable(s, v, step.t) <==>
            step.FreeOutside? && step.v == v && Borrowable(s, v, step.t)
  {
    hide Run, Valid, Init;
    InitInv(threads, store);
    RunKeeps(Init(threads, store), steps);
    OnlyOutside(Run(Init(threads, store), steps), step, v);
  }

  /** And such a free does hit a borrower: a call holds the lock shared, and a tool
      that takes no guard frees a value it may be reading. */
  lemma FreeOutsideHitsABorrower()
    ensures var steps, step := [EnterShared(0)], FreeOutside(1, 7);
            && Valid(Init(2, {7}), steps)
            && var s := Run(Init(2, {7}), steps);
               Enabled(s, step) && Releases(s, step, 7) && Borrowable(s, 7, step.t)
  {
    var s0 := Init(2, {7});
    var s := Apply(s0, EnterShared(0));
    assert [EnterShared(0)][1..] == [];
    assert Run(s0, [EnterShared(0)]) == s;
    assert 7 in s.reach[0] && s.released == [];
    CountCons([], 7, 7);
  }

  lemma OnlyOutside(s: State, step: Step, v: Value)
    requires Inv(s) && Enabled(s, step)
    ensures Releases(s, step, v) && Borrowable(s, v, step.t) <==>
            step.FreeOutside? && step.v == v && Borrowable(s, v, step.t)
  {
    if Releases(s, step, v) && !step.FreeOutside? {
      assert IsWriter(s.pcs[step.t]);
      AloneUnderWriter(s, step.t);
    }
  }

  /** While the lock is held exclusively nothing is within anyone else's reach. */
  lemma AloneUnderWriter(s: State, t: nat)
    requires LockInv(s) && t < |s.pcs| && IsWriter(s.pcs[t])
    ensures forall u :: 0 <= u < |s.pcs| && u != t ==> s.reach[u] == {}
  {
    assert s.writer == Some(t);
    forall u | 0 <= u < |s.pcs| && u != t
      ensures s.reach[u] == {}
    {
      assert u !in s.readers && s.writer != Some(u);
    }
  }

  /** Nothing stays parked at rest: a non-empty list has somebody minding it, so
      it is empty whenever no call is in progress, and by then every value handed
      in was released exactly once, or leaked because its node could not be allocated. */
  lemma NothingParkedAtRest(threads: nat, store: set<Value>, steps: seq<Step>)
    requires Valid(Init(threads, store), steps)
    ensures var s := Run(Init(threads, store), steps);
            && (s.retired != [] ==> exists u :: 0 <= u < |s.pcs| && Minds(s.pcs[u]))
            && ((forall u :: 0 <= u < |s.pcs| ==> s.pcs[u].Outside?) ==>
                  && s.retired == []
                  && forall v :: Count(s.released, v) + Count(s.leaked, v) == if v in s.handed then 1 else 0)
  {
    InitInv(threads, store);
    RunKeeps(Init(threads, store), steps);
    var s := Run(Init(threads, store), steps);
    if forall u :: 0 <= u < |s.pcs| ==> s.pcs[u].Outside? {
      assert s.retired == [];
      forall v
        ensures Count(s.released, v) + Count(s.leaked, v) == if v in s.handed then 1 else 0
      {
        assert Balanced(s, v);
        HandsOfIdle(s.pcs, v);
        CountMember(s.handed, v);
      }
    }
  }

  /** Never twice, at any moment. */
  lemma ReleasedAtMostOnce(threads: nat, store: set<Value>, steps: seq<Step>, v: Value)
    requires Valid(Init(threads, store), steps)
    ensures var s := Run(Init(threads, store), steps);
            Count(s.released, v) <= 1 && (v in s.released ==> v !in s.store && v !in s.retired)
  {
    InitInv(threads, store);
    RunKeeps(Init(threads, store), steps);
    var s := Run(Init(threads, store), steps);
    assert Balanced(s, v);
    CountMember(s.released, v);
    CountMember(s.retired, v);
    CountMember(s.handed, v);
  }

  // --------------------------------------------------------- what a call sees

  predicate NoFreeOutside(steps: seq<Step>) {
    forall i :: 0 <= i < |steps| ==> !steps[i].FreeOutside?
  }

  /** Everything a shared call may be reading is still intact. */
  ghost predicate Intact(s: State) {
    forall u, v :: 0 <= u < |s.reach| && u < |s.pcs| && IsReader(s.pcs[u]) && v in s.reach[u] ==> v !in s.released
  }

  lemma IntactStep(s: State, step: Step)
    requires Inv(s) && Intact(s) && Enabled(s, step) && !step.FreeOutside?
    ensures Intact(Apply(s, step))
  {
    var s' := Apply(s, step);
    forall u, v | 0 <= u < |s'.reach| && u < |s'.pcs| && IsReader(s'.pcs[u]) && v in s'.reach[u]
      ensures v !in s'.released
    {
      IntactAt(s, step, u, v);
    }
  }

  lemma IntactAt(s: State, step: Step, u: nat, v: Value)
    requires Inv(s) && Intact(s) && Enabled(s, step) && !step.FreeOutside?
    requires var s' := Apply(s, step);
             u < |s'.reach| && u < |s'.pcs| && IsReader(s'.pcs[u]) && v in s'.reach[u]
    ensures v !in Apply(s, step).released
  {
    hide Hands;
    assert Balanced(s, v);
    CountMember(s.handed, v);
    CountMember(s.released, v);
    if IsWriter(s.pcs[step.t]) {
      AloneUnderWriter(s, step.t);
    } else if u < |s.reach| && v in s.reach[u] && IsReader(s.pcs[u]) {
      assert v !in s.released;
    } else {
      assert v in s.store || v !in s.ever;
    }
  }

  lemma {:induction false} IntactRun(s: State, steps: seq<Step>)
    requires Inv(s) && Intact(s) && Valid(s, steps) && NoFreeOutside(steps)
    ensures Intact(Run(s, steps))
    decreases |steps|
  {
    hide Inv, Apply, Intact;
    if steps != [] {
      IntactStep(s, steps[0]);
      StepKeeps(s, steps[0]);
      assert forall i :: 0 <= i < |steps[1..]| ==> steps[1..][i] == steps[i + 1];
      IntactRun(Apply(s, steps[0]), steps[1..]);
    }
  }

  /** In every run of guarded calls, no value a shared call may have borrowed has been released. */
  lemma SharedCallsReadIntactValues(threads: nat, store: set<Value>, steps: seq<Step>)
    requires Valid(Init(threads, store), steps) && NoFreeOutside(steps)
    ensures Intact(Run(Init(threads, store), steps))
  {
    InitInv(threads, store);
    IntactRun(Init(threads, store), steps);
  }
}
