/** What becomes of each value under the entry lock, told by the calls alone
    (src/fhsm_apilock.c:118-170). */
module ApiFrees {
  import opened CText
  import opened ApiLock

  predicate Frees(step: Step, v: Value) { (step.FreeValue? || step.FreeOutside?) && step.v == v }

  predicate Freed(steps: seq<Step>, v: Value) { exists i :: 0 <= i < |steps| && Frees(steps[i], v) }

  /** A shared call hands `v` in and its node cannot be allocated. */
  predicate LeaksNow(s: State, step: Step, v: Value)
    requires Enabled(s, step)
  {
    step.FreeValue? && step.v == v && !step.roomy && !s.pcs[step.t].exclusive
  }

  predicate Leaks(s: State, steps: seq<Step>, v: Value)
    requires Valid(s, steps)
    decreases |steps|
  {
    steps != [] && (LeaksNow(s, steps[0], v) || Leaks(Apply(s, steps[0]), steps[1..], v))
  }

  lemma FreedTail(steps: seq<Step>, v: Value)
    requires steps != []
    ensures Freed(steps, v) <==> Frees(steps[0], v) || Freed(steps[1..], v)
  {
    assert forall i :: 0 <= i < |steps[1..]| ==> steps[1..][i] == steps[i + 1];
    if i :| 0 < i < |steps| && Frees(steps[i], v) {
      assert Frees(steps[1..][i - 1], v);
    }
  }

  lemma StepLedger(s: State, step: Step, v: Value)
    requires Enabled(s, step)
    ensures v in Apply(s, step).handed <==> v in s.handed || Frees(step, v)
    ensures v in Apply(s, step).leaked <==> v in s.leaked || LeaksNow(s, step, v)
  {
  }

  /** Over every run: handed in are the values freed, and leaked exactly those whose
      free in a shared call found no memory for its node. */
  lemma {:induction false} LedgerOfRun(s: State, steps: seq<Step>, v: Value)
    requires Valid(s, steps)
    ensures v in Run(s, steps).handed <==> v in s.handed || Freed(steps, v)
    ensures v in Run(s, steps).leaked <==> v in s.leaked || Leaks(s, steps, v)
    decreases |steps|
  {
    hide Apply, LeaksNow, Frees;
    if steps != [] {
      StepLedger(s, steps[0], v);
      FreedTail(steps, v);
      LedgerOfRun(Apply(s, steps[0]), steps[1..], v);
    }
  }

  /** Every parking allocation succeeds. */
  predicate Roomy(steps: seq<Step>) { forall i :: 0 <= i < |steps| && steps[i].FreeValue? ==> steps[i].roomy }

  lemma {:induction false} RoomyNeverLeaks(s: State, steps: seq<Step>, v: Value)
    requires Valid(s, steps) && Roomy(steps)
    ensures !Leaks(s, steps, v)
    decreases |steps|
  {
    hide Apply;
    if steps != [] {
      assert forall i :: 0 <= i < |steps[1..]| ==> steps[1..][i] == steps[i + 1];
      RoomyNeverLeaks(Apply(s, steps[0]), steps[1..], v);
    }
  }

  lemma LeakedIff(threads: nat, store: set<Value>, steps: seq<Step>, v: Value)
    requires Valid(Init(threads, store), steps)
    ensures v in Run(Init(threads, store), steps).leaked <==> Leaks(Init(threads, store), steps, v)
  {
    hide Run, Valid;
    LedgerOfRun(Init(threads, store), steps, v);
  }

  /** At rest, when every parking allocation succeeded: nothing leaked, and a value
      was zeroised and freed exactly once if a call freed it, and not otherwise. */
  lemma ReleasedExactlyOnceAtRest(threads: nat, store: set<Value>, steps: seq<Step>, v: Value)
    requires Valid(Init(threads, store), steps) && Roomy(steps)
    requires var s := Run(Init(threads, store), steps); forall u :: 0 <= u < |s.pcs| ==> s.pcs[u].Outside?
    ensures var s := Run(Init(threads, store), steps);
            s.leaked == [] && Count(s.released, v) == if Freed(steps, v) then 1 else 0
  {
    hide Valid, Apply, Leaks, Freed, Inv;
    var s0, s := Init(threads, store), Run(Init(threads, store), steps);
    NothingParkedAtRest(threads, store, steps);
    assert s.leaked != [] ==> s.leaked[0] in s.leaked;
    forall x: Value
      ensures x !in s.leaked
    {
      LedgerOfRun(s0, steps, x);
      RoomyNeverLeaks(s0, steps, x);
    }
    LedgerOfRun(s0, steps, v);
    CountMember(s.leaked, v);
  }

  // ------------------------------------------------------- what a call can reach

  predicate Creates(step: Step, v: Value) { step.Create? && step.v == v }

  predicate Created(steps: seq<Step>, v: Value) { exists i :: 0 <= i < |steps| && Creates(steps[i], v) }

  lemma CreatedTail(steps: seq<Step>, v: Value)
    requires steps != []
    ensures Created(steps, v) <==> Creates(steps[0], v) || Created(steps[1..], v)
  {
    assert forall i :: 0 <= i < |steps[1..]| ==> steps[1..][i] == steps[i + 1];
    if i :| 0 < i < |steps| && Creates(steps[i], v) {
      assert Creates(steps[1..][i - 1], v);
    }
  }

  lemma StoreStep(s: State, step: Step, v: Value)
    requires Enabled(s, step)
    ensures v in Apply(s, step).store <==> (v in s.store || Creates(step, v)) && !Frees(step, v)
    ensures v in Apply(s, step).ever <==> v in s.ever || Creates(step, v)
  {
  }

  lemma {:induction false} StoreOfRun(s: State, steps: seq<Step>, v: Value)
    requires Valid(s, steps) && s.store <= s.ever
    ensures Run(s, steps).store <= Run(s, steps).ever
    ensures v in Run(s, steps).ever <==> v in s.ever || Created(steps, v)
    ensures v in Run(s, steps).store <==> (v in s.store || Created(steps, v)) && !Freed(steps, v)
    decreases |steps|
  {
    hide Frees, Creates;
    if steps != [] {
      var s' := Apply(s, steps[0]);
      StoreStep(s, steps[0], v);
      assert s'.store <= s'.ever by {
        forall x | x in s'.store
          ensures x in s'.ever
        {
          StoreStep(s, steps[0], x);
        }
      }
      hide Apply;
      FreedTail(steps, v);
      CreatedTail(steps, v);
      StoreOfRun(s', steps[1..], v);
      CreateOnce(s, steps, v);
    }
  }

  /** A value freed was in the store, so none is created after it was freed. */
  lemma CreateOnce(s: State, steps: seq<Step>, v: Value)
    requires Valid(s, steps) && steps != [] && s.store <= s.ever
    ensures Frees(steps[0], v) ==> !Created(steps[1..], v)
  {
    if Frees(steps[0], v) {
      StoreStep(s, steps[0], v);
      assert v in s.ever;
      NeverAgain(Apply(s, steps[0]), steps[1..], v);
    }
  }

  lemma {:induction false} NeverAgain(s: State, steps: seq<Step>, v: Value)
    requires Valid(s, steps) && v in s.ever
    ensures !Created(steps, v)
    decreases |steps|
  {
    hide Apply;
    if steps != [] {
      StoreStep(s, steps[0], v);
      CreatedTail(steps, v);
      NeverAgain(Apply(s, steps[0]), steps[1..], v);
    }
  }

  /** The store holds, over every run, what was there or created and not freed. */
  lemma StoreIff(threads: nat, store: set<Value>, steps: seq<Step>, v: Value)
    requires Valid(Init(threads, store), steps)
    ensures v in Run(Init(threads, store), steps).store <==> (v in store || Created(steps, v)) && !Freed(steps, v)
  {
    hide Run, Valid;
    StoreOfRun(Init(threads, store), steps, v);
  }

  /** Everything in the store is within reach of every call in flight. */
  ghost predicate WithinReach(s: State) {
    |s.reach| == |s.pcs| && forall u :: 0 <= u < |s.pcs| && Holds(s.pcs[u]) ==> s.store <= s.reach[u]
  }

  lemma ReachStep(s: State, step: Step)
    requires Enabled(s, step) && WithinReach(s)
    ensures WithinReach(Apply(s, step))
    ensures forall u :: 0 <= u < |s.pcs| && Holds(s.pcs[u]) && Holds(Apply(s, step).pcs[u]) ==>
              s.reach[u] <= Apply(s, step).reach[u]
  {
  }

  lemma {:induction false} ReachOfRun(s: State, steps: seq<Step>)
    requires Valid(s, steps) && WithinReach(s)
    ensures WithinReach(Run(s, steps))
    decreases |steps|
  {
    hide WithinReach, Apply;
    if steps != [] {
      ReachStep(s, steps[0]);
      ReachOfRun(Apply(s, steps[0]), steps[1..]);
    }
  }

  /** A call may borrow anything in the store at any moment it is inside, and what it
      may have borrowed stays within its reach until it leaves: that is whom
      `NoFreeUnderBorrower` protects. */
  lemma CallsMayBorrowAnything(threads: nat, store: set<Value>, steps: seq<Step>, step: Step, u: nat)
    requires Valid(Init(threads, store), steps) && Enabled(Run(Init(threads, store), steps), step)
    requires var s := Run(Init(threads, store), steps); u < |s.pcs| && Holds(s.pcs[u])
    ensures var s := Run(Init(threads, store), steps); var s' := Apply(s, step);
            && u < |s.reach| && s.store <= s.reach[u]
            && (u < |s'.pcs| && Holds(s'.pcs[u]) ==> u < |s'.reach| && s.reach[u] + s'.store <= s'.reach[u])
  {
    hide Run, Valid, Apply;
    ReachOfRun(Init(threads, store), steps);
    ReachStep(Run(Init(threads, store), steps), step);
    NoneLost(Run(Init(threads, store), steps), step);
  }

  lemma NoneLost(s: State, step: Step)
    requires Enabled(s, step)
    ensures |Apply(s, step).pcs| == |s.pcs|
  {
  }

  /** A nested call is a no-op: entering it and leaving it again changes nothing, and
      neither touches the lock, the list or any value. */
  lemma NestingIsTransparent(s: State, t: nat)
    requires Enabled(s, NestEnter(t))
    ensures var s1 := Apply(s, NestEnter(t));
            && s1 == s.(pcs := s1.pcs) && s1.pcs == s.pcs[t := s1.pcs[t]]
            && Enabled(s1, NestLeave(t)) && Apply(s1, NestLeave(t)) == s
  {
    var s1 := Apply(s, NestEnter(t));
    assert Apply(s1, NestLeave(t)).pcs == s.pcs;
  }
}
