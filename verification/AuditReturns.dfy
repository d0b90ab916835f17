/** What an event returns under group commit (src/fhsm_audit.c:708, 728-744), in
    every interleaving: OK exactly when no barrier has failed. */
module AuditReturns {
  import opened AuditChain
  import opened AuditCommit

  // ---------------------------------------------------------------- invariant

  /** Generations record later and later lines, and no two open events share one. */
  predicate Apart(s: State) {
    && |s.lineOf| == s.wanted
    && (forall g, h :: 0 <= g < h < s.wanted ==> s.lineOf[g] < s.lineOf[h])
    && (forall i :: 0 <= i < |s.writers| && Pending(s.writers[i]) ==> Claims(s, s.writers[i]))
    && (forall i, j :: 0 <= i < j < |s.writers| && Pending(s.writers[i]) && Pending(s.writers[j]) ==>
          s.writers[i].need != s.writers[j].need)
  }

  predicate Claims(s: State, p: Phase)
    requires Pending(p) && |s.lineOf| == s.wanted
  {
    1 <= p.need <= s.wanted && s.lineOf[p.need - 1] == p.at
  }

  /** Nothing is acknowledged while its event is open. */
  predicate NotYet(s: State) {
    forall i :: 0 <= i < |s.writers| && Pending(s.writers[i]) ==> s.writers[i].at !in s.acked
  }

  predicate OpenAt(s: State, a: nat) {
    exists i :: 0 <= i < |s.writers| && Pending(s.writers[i]) && s.writers[i].at == a
  }

  /** Until a barrier fails, every line written whole is acknowledged or its event is open. */
  predicate Followed(s: State) {
    !s.failed ==>
      forall a :: 0 <= a < |s.log| && s.log[a].outcome.Written? ==> a in s.acked || OpenAt(s, a)
  }

  predicate ReturnInv(s: State) { Apart(s) && NotYet(s) && Followed(s) }

  // -------------------------------------------------------------- the loop head

  /** A writer at the loop head: it returns OK exactly when no barrier has failed. */
  lemma LoopHeadReturns(s: State, t: nat, need: nat, at: nat, waited: nat)
    requires ReturnInv(s) && t < |s.writers| && Pending(s.writers[t])
    requires s.writers[t].need == need && s.writers[t].at == at
    ensures var s' := LoopHead(s, t, need, at, waited);
            && ReturnInv(s') && s'.failed == s.failed && s'.log == s.log
            && (s'.writers[t].Idle? ==> (at in s'.acked <==> !s'.failed))
  {
    hide Followed, Apart, NotYet;
    var s' := LoopHead(s, t, need, at, waited);
    assert at !in s.acked by { NotYetAt(s, t); }
    OthersElsewhere(s, t);
    StillApart(s, s', t);
    StillFollowed(s, s', t);
    StillNotYet(s, s', t);
  }

  lemma NotYetAt(s: State, t: nat)
    requires NotYet(s) && t < |s.writers| && Pending(s.writers[t])
    ensures s.writers[t].at !in s.acked
  {
  }

  /** No other open event has the line of `t`. */
  lemma OthersElsewhere(s: State, t: nat)
    requires Apart(s) && t < |s.writers| && Pending(s.writers[t])
    ensures forall i :: 0 <= i < |s.writers| && i != t && Pending(s.writers[i]) ==> s.writers[i].at != s.writers[t].at
  {
    var need := s.writers[t].need;
    assert Claims(s, s.writers[t]);
    forall i | 0 <= i < |s.writers| && i != t && Pending(s.writers[i])
      ensures s.writers[i].at != s.writers[t].at
    {
      assert Claims(s, s.writers[i]);
      if s.writers[i].need < need {
        assert s.lineOf[s.writers[i].need - 1] < s.lineOf[need - 1];
      } else {
        assert s.lineOf[need - 1] < s.lineOf[s.writers[i].need - 1];
      }
    }
  }

  lemma StillApart(s: State, s': State, t: nat)
    requires Apart(s) && t < |s.writers| && Pending(s.writers[t]) && |s'.writers| == |s.writers|
    requires s'.lineOf == s.lineOf && s'.wanted == s.wanted
    requires forall i :: 0 <= i < |s.writers| && i != t ==> s'.writers[i] == s.writers[i]
    requires Pending(s'.writers[t]) ==>
               s'.writers[t].need == s.writers[t].need && s'.writers[t].at == s.writers[t].at
    ensures Apart(s')
  {
    forall i | 0 <= i < |s.writers| && Pending(s'.writers[i])
      ensures Claims(s', s'.writers[i])
    {
      assert Claims(s, s.writers[i]);
    }
  }

  lemma StillNotYet(s: State, s': State, t: nat)
    requires NotYet(s) && t < |s.writers| && Pending(s.writers[t]) && |s'.writers| == |s.writers|
    requires forall i :: 0 <= i < |s.writers| && i != t ==> s'.writers[i] == s.writers[i]
    requires forall i :: 0 <= i < |s.writers| && i != t && Pending(s.writers[i]) ==> s.writers[i].at != s.writers[t].at
    requires if Pending(s'.writers[t]) then s'.acked == s.acked && s'.writers[t].at == s.writers[t].at
             else s'.acked <= s.acked + {s.writers[t].at}
    ensures NotYet(s')
  {
  }

  lemma StillFollowed(s: State, s': State, t: nat)
    requires Followed(s) && t < |s.writers| && Pending(s.writers[t]) && |s'.writers| == |s.writers|
    requires s'.log == s.log && s'.failed == s.failed && s.acked <= s'.acked
    requires forall i :: 0 <= i < |s.writers| && i != t ==> s'.writers[i] == s.writers[i]
    requires s.failed || s.writers[t].at in s'.acked
             || (Pending(s'.writers[t]) && s'.writers[t].at == s.writers[t].at)
    ensures Followed(s')
  {
    forall a | !s.failed && 0 <= a < |s.log| && s.log[a].outcome.Written? && a !in s'.acked
      ensures OpenAt(s', a)
    {
      var i :| 0 <= i < |s.writers| && Pending(s.writers[i]) && s.writers[i].at == a;
      assert Pending(s'.writers[i]) && s'.writers[i].at == a;
    }
  }

  // ------------------------------------------------------------------ the steps

  /** A step that moves no event in or out: same claims, same lines, same answers. */
  lemma SameClaims(s: State, s': State)
    requires ReturnInv(s) && |s'.writers| == |s.writers| && (s.failed ==> s'.failed)
    requires s'.log == s.log && s'.lineOf == s.lineOf && s'.wanted == s.wanted && s'.acked == s.acked
    requires forall i :: 0 <= i < |s.writers| ==> SameClaim(s.writers[i], s'.writers[i])
    ensures ReturnInv(s')
  {
    forall a | 0 <= a < |s.log| && OpenAt(s, a)
      ensures OpenAt(s', a)
    {
      var i :| 0 <= i < |s.writers| && Pending(s.writers[i]) && s.writers[i].at == a;
      assert Pending(s'.writers[i]) && s'.writers[i].at == a;
    }
  }

  predicate SameClaim(p: Phase, q: Phase) {
    (Pending(p) <==> Pending(q)) && (Pending(p) ==> p.need == q.need && p.at == q.at)
  }

  lemma GrownByFailure(s: State, a: Attempt)
    requires ReturnInv(s) && !a.outcome.Written?
    ensures ReturnInv(s.(log := s.log + [a]))
  {
    var s' := s.(log := s.log + [a]);
    forall x | 0 <= x < |s.log| && OpenAt(s, x)
      ensures OpenAt(s', x)
    {
      var i :| 0 <= i < |s.writers| && Pending(s.writers[i]) && s.writers[i].at == x;
      assert Pending(s'.writers[i]);
    }
  }

  /** The state in which a written event enters the loop. */
  function Entering(s: State, t: nat, a: Attempt): State
    requires t < |s.writers|
  {
    s.(log := s.log + [a], wanted := s.wanted + 1, events := s.events + 1, lineOf := s.lineOf + [|s.log|],
       writers := s.writers[t := Awake(s.wanted + 1, |s.log|, 0)])
  }

  lemma EnteringKeeps(s: State, t: nat, a: Attempt)
    requires Inv(s) && ReturnInv(s) && t < |s.writers| && s.writers[t].Idle? && a.outcome.Written?
    ensures ReturnInv(Entering(s, t, a))
  {
    hide Apart, NotYet, Followed, WritersInv, OneBarrier, CountInv;
    assert LinesInv(s) && AckInv(s);
    EnteringApart(s, t, a);
    EnteringNotYet(s, t, a);
    EnteringFollowed(s, t, a);
  }

  lemma EnteringApart(s: State, t: nat, a: Attempt)
    requires LinesInv(s) && Apart(s) && t < |s.writers| && s.writers[t].Idle?
    ensures Apart(Entering(s, t, a))
  {
    var s' := Entering(s, t, a);
    assert forall g :: 0 <= g < s.wanted ==> s'.lineOf[g] == s.lineOf[g] < |s.log|;
    forall i | 0 <= i < |s.writers| && i != t && Pending(s.writers[i])
      ensures Claims(s', s'.writers[i]) && s'.writers[i].need <= s.wanted
    {
      assert Claims(s, s.writers[i]);
    }
    assert Claims(s', s'.writers[t]);
  }

  lemma EnteringNotYet(s: State, t: nat, a: Attempt)
    requires LinesInv(s) && AckInv(s) && NotYet(s) && t < |s.writers|
    ensures NotYet(Entering(s, t, a))
  {
    hide Covered;
  }

  lemma EnteringFollowed(s: State, t: nat, a: Attempt)
    requires Followed(s) && t < |s.writers| && s.writers[t].Idle?
    ensures Followed(Entering(s, t, a))
  {
    var s' := Entering(s, t, a);
    forall x | 0 <= x < |s'.log| && s'.log[x].outcome.Written? && !s.failed && x !in s.acked
      ensures OpenAt(s', x)
    {
      if x == |s.log| {
        assert Pending(s'.writers[t]);
      } else {
        assert OpenAt(s, x);
        var i :| 0 <= i < |s.writers| && Pending(s.writers[i]) && s.writers[i].at == x;
        assert Pending(s'.writers[i]);
      }
    }
  }

  /** The event of writer `t` ends with this step: its line, or its own new one. */
  predicate Ends(s: State, step: Step, t: nat, at: nat)
    requires Enabled(s, step)
  {
    && t < |s.writers| && Apply(s, step).writers[t].Idle?
    && if Pending(s.writers[t]) then s.writers[t].at == at
       else step.Emit? && step.t == t && step.attempt.outcome.Written? && at == |s.log|
  }

  ghost predicate Answered(s: State, step: Step)
    requires Enabled(s, step)
  {
    var s' := Apply(s, step);
    forall t, at :: Ends(s, step, t, at) ==> (at in s'.acked <==> !s'.failed)
  }

  lemma EmitReturns(s: State, t: nat, a: Attempt)
    requires Inv(s) && ReturnInv(s) && Enabled(s, Emit(t, a))
    ensures ReturnInv(Apply(s, Emit(t, a))) && Answered(s, Emit(t, a))
  {
    hide LinesInv, AckInv, WritersInv, OneBarrier, CountInv;
    var step := Emit(t, a);
    if a.outcome.Written? {
      EnteringKeeps(s, t, a);
      LoopHeadReturns(Entering(s, t, a), t, s.wanted + 1, |s.log|, 0);
      var before := s.(log := s.log + [a], wanted := s.wanted + 1, events := s.events + 1,
                       lineOf := s.lineOf + [|s.log|]);
      LoopHeadForgets(before, t, Awake(s.wanted + 1, |s.log|, 0), s.wanted + 1, |s.log|, 0);
      OnlyWriter(s, step, t);
    } else {
      GrownByFailure(s, a);
    }
  }

  /** Only one writer leaves its place in a step that reaches the loop head. */
  lemma OnlyWriter(s: State, step: Step, t: nat)
    requires Enabled(s, step) && !step.WriteBack? && step.t == t
    ensures forall u :: 0 <= u < |s.writers| && u != t && Pending(s.writers[u]) ==> Pending(Apply(s, step).writers[u])
    ensures forall u :: 0 <= u < |s.writers| && u != t && s.writers[u].Idle? ==> Apply(s, step).writers[u].Idle?
  {
  }

  lemma PublishReturns(s: State, t: nat)
    requires Inv(s) && ReturnInv(s) && Enabled(s, Publish(t))
    ensures ReturnInv(Apply(s, Publish(t))) && Answered(s, Publish(t))
  {
    hide Inv, ReturnInv, LoopHead, Broadcast;
    var w, s1 := s.writers[t], Published(s, t);
    PublishedKeeps(s, t);
    LoopHeadReturns(s1, t, w.need, w.at, if s.done < w.need then w.waited + 1 else w.waited);
    OnlyWriter(s, Publish(t), t);
  }

  /** The state in which the writer of a barrier goes back to the loop head. */
  function Published(s: State, t: nat): State
    requires t < |s.writers| && s.writers[t].Synced?
  {
    var w := s.writers[t];
    s.(barriers := s.barriers + 1, syncing := false, failed := s.failed || !w.ok,
       done := if w.ok && s.done < w.covering then w.covering else s.done,
       writers := Broadcast(s.writers, s.done),
       finished := s.finished + [Barrier(w.start, w.ok)])
  }

  lemma PublishedKeeps(s: State, t: nat)
    requires ReturnInv(s) && t < |s.writers| && s.writers[t].Synced?
    ensures var s1 := Published(s, t); ReturnInv(s1) && s1.writers[t] == s.writers[t]
  {
    hide ReturnInv;
    SameClaims(s, Published(s, t));
  }

  lemma ResumeReturns(s: State, t: nat)
    requires ReturnInv(s) && Enabled(s, Resume(t))
    ensures ReturnInv(Apply(s, Resume(t))) && Answered(s, Resume(t))
  {
    var w := s.writers[t];
    LoopHeadReturns(s, t, w.need, w.at, w.waited);
    OnlyWriter(s, Resume(t), t);
  }

  lemma StepReturns(s: State, step: Step)
    requires Inv(s) && ReturnInv(s) && Enabled(s, step)
    ensures ReturnInv(Apply(s, step)) && Answered(s, step)
  {
    hide Inv, ReturnInv;
    match step
    case Emit(t, a) => EmitReturns(s, t, a);
    case Publish(t) => PublishReturns(s, t);
    case Resume(t) => ResumeReturns(s, t);
    case Return(t, ok) => SameClaims(s, Apply(s, step));
    case WriteBack(n) => SameClaims(s, Apply(s, step));
  }

  lemma {:induction false} RunReturns(s: State, steps: seq<Step>)
    requires Inv(s) && ReturnInv(s) && Valid(s, steps)
    ensures ReturnInv(Run(s, steps))
    decreases |steps|
  {
    hide Inv, ReturnInv, Apply, Answered;
    if steps != [] {
      StepReturns(s, steps[0]);
      StepKeeps(s, steps[0]);
      RunReturns(Apply(s, steps[0]), steps[1..]);
    }
  }

  // ------------------------------------------------------- what the steps say

  /** The attempts made, in order. */
  function Emitted(steps: seq<Step>): (log: Opening) {
    if steps == [] then []
    else (if steps[0].Emit? then [steps[0].attempt] else []) + Emitted(steps[1..])
  }

  lemma {:induction false} LogIsEmitted(s: State, steps: seq<Step>)
    requires Valid(s, steps)
    ensures Run(s, steps).log == s.log + Emitted(steps)
    decreases |steps|
  {
    if steps != [] {
      LogIsEmitted(Apply(s, steps[0]), steps[1..]);
    }
  }

  /** Some `fdatasync` returned an error. */
  predicate SyncFails(steps: seq<Step>) {
    exists i :: 0 <= i < |steps| && steps[i].Return? && !steps[i].ok
  }

  predicate BadNews(s: State) {
    s.failed || exists i :: 0 <= i < |s.writers| && s.writers[i].Synced? && !s.writers[i].ok
  }

  lemma NewsStep(s: State, step: Step)
    requires Enabled(s, step)
    ensures BadNews(Apply(s, step)) <==> BadNews(s) || (step.Return? && !step.ok)
  {
    var s' := Apply(s, step);
    if BadNews(s) && !s'.failed {
      var i :| 0 <= i < |s.writers| && s.writers[i].Synced? && !s.writers[i].ok;
      assert s'.writers[i] == s.writers[i];
    }
    if BadNews(s') && !s.failed && !s'.failed {
      var i :| 0 <= i < |s'.writers| && s'.writers[i].Synced? && !s'.writers[i].ok;
      assert s'.writers[i] == s.writers[i] || (step.Return? && step.t == i && !step.ok);
    }
    if step.Return? && !step.ok {
      assert s'.writers[step.t].Synced?;
    }
  }

  lemma {:induction false} NewsOfRun(s: State, steps: seq<Step>)
    requires Valid(s, steps)
    ensures BadNews(Run(s, steps)) <==> BadNews(s) || SyncFails(steps)
    decreases |steps|
  {
    hide BadNews, Apply;
    if steps != [] {
      NewsStep(s, steps[0]);
      NewsOfRun(Apply(s, steps[0]), steps[1..]);
      assert forall i :: 0 <= i < |steps[1..]| ==> steps[1..][i] == steps[i + 1];
      if i :| 0 < i < |steps| && steps[i].Return? && !steps[i].ok {
        assert steps[1..][i - 1] == steps[i];
      }
    }
  }

  // -------------------------------------------------------------------- results

  lemma InitReturns(threads: nat)
    ensures ReturnInv(Init(threads)) && !BadNews(Init(threads))
  {
  }

  /** In every interleaving: when a step ends an event, its line is acknowledged if
      and only if no barrier has failed. */
  lemma ReturnsOkIff(threads: nat, steps: seq<Step>, step: Step, t: nat, at: nat)
    requires Valid(Init(threads), steps) && Enabled(Run(Init(threads), steps), step)
    requires Ends(Run(Init(threads), steps), step, t, at)
    ensures var s' := Apply(Run(Init(threads), steps), step); at in s'.acked <==> !s'.failed
  {
    hide Run, Valid, Init, Inv, ReturnInv, Apply, Ends;
    InitInv(threads);
    InitReturns(threads);
    RunKeeps(Init(threads), steps);
    RunReturns(Init(threads), steps);
    StepReturns(Run(Init(threads), steps), step);
  }

  /** Hence with nobody left inside: the log holds every attempt made, a barrier has
      failed exactly when some `fdatasync` did, and if none did, the acknowledged
      events are exactly those written whole. */
  lemma AllAnsweredAtRest(threads: nat, steps: seq<Step>)
    requires Valid(Init(threads), steps)
    requires var s := Run(Init(threads), steps); forall i :: 0 <= i < |s.writers| ==> s.writers[i].Idle?
    ensures var s, log := Run(Init(threads), steps), Emitted(steps);
            && s.log == log && (s.failed <==> SyncFails(steps))
            && (!SyncFails(steps) ==> s.acked == set a | 0 <= a < |log| && log[a].outcome.Written?)
  {
    hide Valid, Apply;
    var s := Run(Init(threads), steps);
    InitInv(threads);
    InitReturns(threads);
    RunKeeps(Init(threads), steps);
    RunReturns(Init(threads), steps);
    LogIsEmitted(Init(threads), steps);
    NewsOfRun(Init(threads), steps);
    assert [] + Emitted(steps) == Emitted(steps);
    if !SyncFails(steps) {
      var whole := set a | 0 <= a < |s.log| && s.log[a].outcome.Written?;
      assert AckInv(s);
      assert s.acked <= whole;
      forall a | a in whole
        ensures a in s.acked
      {
        assert !OpenAt(s, a);
      }
    }
  }
}
