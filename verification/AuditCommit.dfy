/** Group commit: many writers append under one mutex and share durable
    barriers (src/fhsm_audit.c:58-88, 688-744). Each stretch of code between
    taking the mutex and giving it up (or sleeping on the condition variable) is
    one atomic step; `fdatasync` runs outside the mutex and is a step of its own. */
module AuditCommit {
  import opened AuditChain
  import AuditLine

  /** Where a writer is. `need` is its generation, `at` the index of its line in
      the log, and `waited` counts the barriers that ended while it was uncovered. */
  datatype Phase =
    | Idle
    | Syncing(need: nat, at: nat, waited: nat, covering: nat, start: nat)
    | Synced(need: nat, at: nat, waited: nat, covering: nat, start: nat, ok: bool)
    | Asleep(need: nat, at: nat, waited: nat)
    | Awake(need: nat, at: nat, waited: nat)

  /** A finished barrier: the length of the log when it started, and its result. */
  datatype Barrier = Barrier(start: nat, ok: bool)

  datatype State = State(
    log: Opening,              // every attempt, in mutex order
    durable: nat,              // at least this prefix survives a crash
    wanted: nat, done: nat, syncing: bool, failed: bool,
    events: nat, barriers: nat,
    writers: seq<Phase>,
    lineOf: seq<nat>,          // history: the log index behind each generation
    acked: set<nat>,           // history: log indices whose event returned OK
    finished: seq<Barrier>)    // history: the barriers, in order

  datatype Step =
    | Emit(t: nat, attempt: Attempt)     // take the mutex, write, run to the first release
    | Return(t: nat, ok: bool)           // fdatasync returns
    | Publish(t: nat)                    // retake the mutex, publish, broadcast, run on
    | Resume(t: nat)                     // retake the mutex after a wake-up, run on
    | WriteBack(n: nat)                  // the kernel flushes on its own

  function Init(threads: nat): State {
    State([], 0, 0, 0, false, false, 0, 0, seq(threads, i => Idle), [], {}, [])
  }

  /** The loop head, run with the mutex held (src/fhsm_audit.c:708-727). */
  function LoopHead(s: State, t: nat, need: nat, at: nat, waited: nat): State
    requires t < |s.writers|
  {
    if s.failed then s.(writers := s.writers[t := Idle])
    else if s.done >= need then s.(writers := s.writers[t := Idle], acked := s.acked + {at})
    else if !s.syncing then
      s.(syncing := true, writers := s.writers[t := Syncing(need, at, waited, s.wanted, |s.log|)])
    else s.(writers := s.writers[t := Asleep(need, at, waited)])
  }

  /** The broadcast, which also counts the barrier for every uncovered writer. */
  function Woken(p: Phase, done: nat): Phase {
    match p
    case Asleep(need, at, waited) => Awake(need, at, if done < need then waited + 1 else waited)
    case Awake(need, at, waited) => p.(waited := if done < need then waited + 1 else waited)
    case _ => p
  }

  function Broadcast(ws: seq<Phase>, done: nat): (r: seq<Phase>)
    ensures |r| == |ws|
  {
    seq(|ws|, i requires 0 <= i < |ws| => Woken(ws[i], done))
  }

  predicate Enabled(s: State, step: Step) {
    match step
    case Emit(t, _) => t < |s.writers| && s.writers[t].Idle?
    case Return(t, _) => t < |s.writers| && s.writers[t].Syncing?
    case Publish(t) => t < |s.writers| && s.writers[t].Synced?
    case Resume(t) => t < |s.writers| && (s.writers[t].Awake? || s.writers[t].Asleep?)
    case WriteBack(n) => s.durable <= n <= |s.log|
  }

  function Apply(s: State, step: Step): State
    requires Enabled(s, step)
  {
    match step
    case Emit(t, a) =>
      var s1 := s.(log := s.log + [a]);
      if !a.outcome.Written? then s1
      else
        var need := s.wanted + 1;
        var s2 := s1.(wanted := need, events := s.events + 1, lineOf := s.lineOf + [|s.log|]);
        LoopHead(s2, t, need, |s.log|, 0)
    case Return(t, ok) =>
      var w := s.writers[t];
      s.(durable := if ok && s.durable < w.start then w.start else s.durable,
         writers := s.writers[t := Synced(w.need, w.at, w.waited, w.covering, w.start, ok)])
    case Publish(t) =>
      var w := s.writers[t];
      var s1 := s.(barriers := s.barriers + 1, syncing := false,
                   failed := s.failed || !w.ok,
                   done := if w.ok && s.done < w.covering then w.covering else s.done,
                   writers := Broadcast(s.writers, s.done),
                   finished := s.finished + [Barrier(w.start, w.ok)]);
      LoopHead(s1, t, w.need, w.at, if s.done < w.need then w.waited + 1 else w.waited)
    case Resume(t) =>
      var w := s.writers[t];
      LoopHead(s, t, w.need, w.at, w.waited)
    case WriteBack(n) => s.(durable := n)
  }

  predicate Valid(s: State, steps: seq<Step>)
    decreases |steps|
  {
    steps == [] || (Enabled(s, steps[0]) && Valid(Apply(s, steps[0]), steps[1..]))
  }

  function Run(s: State, steps: seq<Step>): State
    requires Valid(s, steps)
    decreases |steps|
  {
    if steps == [] then s else Run(Apply(s, steps[0]), steps[1..])
  }

  // -------------------------------------------------------------- invariant

  predicate Pending(p: Phase) { !p.Idle? }

  predicate Busy(p: Phase) { p.Syncing? || p.Synced? }

  /** Generations and lines. */
  predicate LinesInv(s: State) {
    && |s.lineOf| == s.wanted == s.events
    && s.done <= s.wanted && s.durable <= |s.log|
    && (forall g :: 0 <= g < s.wanted ==> s.lineOf[g] < |s.log| && s.log[s.lineOf[g]].outcome.Written?)
    && (forall g :: 0 <= g < s.done ==> s.lineOf[g] < s.durable)
  }

  /** Every acknowledged line is behind a successful barrier that started after it. */
  predicate Covered(finished: seq<Barrier>, at: nat) {
    exists b :: b in finished && b.ok && at < b.start
  }

  predicate AckInv(s: State)
    requires LinesInv(s)
  {
    && (forall a :: a in s.acked ==> a < s.durable && s.log[a].outcome.Written? && Covered(s.finished, a))
    && (forall g :: 0 <= g < s.done ==> Covered(s.finished, s.lineOf[g]))
  }

  /** A writer with an event open. */
  predicate WriterInv(s: State, p: Phase)
    requires LinesInv(s)
  {
    Pending(p) ==>
      && 1 <= p.need <= s.wanted && s.lineOf[p.need - 1] == p.at
      && p.waited <= 2
      && (s.done < p.need && !s.failed ==> p.waited <= 1)
      && (p.Asleep? ==> s.syncing)
      && (Busy(p) ==> BarrierInv(s, p))
  }

  /** The barrier in flight covers everything logged when it started. */
  predicate BarrierInv(s: State, p: Phase)
    requires Busy(p) && LinesInv(s)
  {
    && s.syncing && !s.failed && s.done < p.need <= p.covering <= s.wanted && p.start <= |s.log|
    && (forall g :: 0 <= g < p.covering ==> s.lineOf[g] < p.start)
    && (p.Synced? && p.ok ==> p.start <= s.durable)
  }

  /** One barrier at a time, `syncing` says whether there is one, and it covers
      every writer that has already sat through another. */
  predicate OneBarrier(s: State) {
    && (s.syncing ==> exists i :: 0 <= i < |s.writers| && Busy(s.writers[i]))
    && (forall i, j :: 0 <= i < |s.writers| && 0 <= j < |s.writers| && Busy(s.writers[i]) && Busy(s.writers[j]) ==>
          i == j)
    && (forall i, j :: 0 <= i < |s.writers| && 0 <= j < |s.writers| && Busy(s.writers[i]) ==>
          ServedBy(s.done, s.writers[j], s.writers[i]))
  }

  predicate ServedBy(done: nat, p: Phase, busy: Phase)
    requires Busy(busy)
  {
    Pending(p) && p.waited >= 1 && done < p.need ==> p.need <= busy.covering
  }

  /** The barrier in flight, if any, covers `p` if `p` has sat through one already. */
  predicate WillServe(s: State, p: Phase) {
    forall i :: 0 <= i < |s.writers| && Busy(s.writers[i]) ==> ServedBy(s.done, p, s.writers[i])
  }

  /** Each finished barrier moved `done`, except at most one that failed. */
  predicate CountInv(s: State) {
    && |s.finished| == s.barriers
    && s.barriers <= s.done + (if s.failed then 1 else 0)
    && (s.syncing || s.failed ==> s.done < s.wanted)
    && (s.failed <==> exists b :: b in s.finished && !b.ok)
  }

  predicate WritersInv(s: State)
    requires LinesInv(s)
  {
    forall i :: 0 <= i < |s.writers| ==> WriterInv(s, s.writers[i])
  }

  predicate Inv(s: State) {
    LinesInv(s) && AckInv(s) && WritersInv(s) && OneBarrier(s) && CountInv(s)
  }

  lemma InitInv(threads: nat)
    ensures Inv(Init(threads))
  {
  }

  /** Leaving the loop, starting a barrier and going to sleep all keep the invariant. */
  lemma LoopHeadKeeps(s: State, t: nat, need: nat, at: nat, waited: nat)
    requires Inv(s) && t < |s.writers| && s.writers[t].Idle?
    requires 1 <= need <= s.wanted && s.lineOf[need - 1] == at && waited <= 2
    requires s.done < need && !s.failed ==> waited <= 1
    requires WillServe(s, Awake(need, at, waited))
    ensures Inv(LoopHead(s, t, need, at, waited))
  {
    if s.failed || s.done >= need {
      LeaveKeeps(s, t, need, at);
    } else if !s.syncing {
      StartKeeps(s, t, need, at, waited);
    } else {
      SleepKeeps(s, t, need, at, waited);
    }
  }

  lemma LeaveKeeps(s: State, t: nat, need: nat, at: nat)
    requires Inv(s) && t < |s.writers| && s.writers[t].Idle?
    requires 1 <= need <= s.wanted && s.lineOf[need - 1] == at
    ensures Inv(s.(writers := s.writers[t := Idle]))
    ensures s.done >= need ==> Inv(s.(writers := s.writers[t := Idle], acked := s.acked + {at}))
  {
    assert s.writers[t := Idle] == s.writers;
    assert s.(writers := s.writers[t := Idle]) == s;
    var s' := s.(acked := s.acked + {at});
    if s.done >= need {
      assert LinesInv(s') && AckInv(s');
      assert forall p :: WriterInv(s, p) ==> WriterInv(s', p);
      assert s' == s.(writers := s.writers[t := Idle], acked := s.acked + {at});
    }
  }

  lemma SleepKeeps(s: State, t: nat, need: nat, at: nat, waited: nat)
    requires Inv(s) && t < |s.writers| && s.writers[t].Idle? && s.syncing && !s.failed && s.done < need
    requires 1 <= need <= s.wanted && s.lineOf[need - 1] == at && waited <= 1
    requires WillServe(s, Awake(need, at, waited))
    ensures Inv(s.(writers := s.writers[t := Asleep(need, at, waited)]))
  {
    hide Covered, OneBarrier, WillServe;
    var me := Asleep(need, at, waited);
    var s' := s.(writers := s.writers[t := me]);
    assert LinesInv(s') && AckInv(s');
    assert WriterInv(s', me);
    SameWriters(s, s', t);
    StillOneBarrier(s, t, need, at, waited);
  }

  lemma StillOneBarrier(s: State, t: nat, need: nat, at: nat, waited: nat)
    requires OneBarrier(s) && s.syncing && t < |s.writers| && s.writers[t].Idle?
    requires WillServe(s, Awake(need, at, waited))
    ensures OneBarrier(s.(writers := s.writers[t := Asleep(need, at, waited)]))
  {
    var s' := s.(writers := s.writers[t := Asleep(need, at, waited)]);
    var i :| 0 <= i < |s.writers| && Busy(s.writers[i]);
    assert Busy(s'.writers[i]);
  }

  lemma StartKeeps(s: State, t: nat, need: nat, at: nat, waited: nat)
    requires Inv(s) && t < |s.writers| && s.writers[t].Idle? && !s.syncing && !s.failed && s.done < need
    requires 1 <= need <= s.wanted && s.lineOf[need - 1] == at && waited <= 1
    ensures Inv(s.(syncing := true, writers := s.writers[t := Syncing(need, at, waited, s.wanted, |s.log|)]))
  {
    var me := Syncing(need, at, waited, s.wanted, |s.log|);
    var s' := s.(syncing := true, writers := s.writers[t := me]);
    assert LinesInv(s') && AckInv(s');
    assert BarrierInv(s', me);
    assert WriterInv(s', me);
    SameWriters(s, s', t);
    assert Busy(s'.writers[t]);
    NobodyBusy(s);
  }

  lemma NobodyBusy(s: State)
    requires Inv(s) && !s.syncing
    ensures forall i :: 0 <= i < |s.writers| ==> !Busy(s.writers[i])
  {
    forall i | 0 <= i < |s.writers|
      ensures !Busy(s.writers[i])
    {
      assert WriterInv(s, s.writers[i]);
    }
  }

  /** The other writers are fine as long as the shared counters are. */
  lemma SameWriters(s: State, s': State, t: nat)
    requires Inv(s) && LinesInv(s') && |s.writers| == |s'.writers| && t < |s.writers|
    requires forall i :: 0 <= i < |s.writers| && i != t ==> s'.writers[i] == s.writers[i]
    requires WriterInv(s', s'.writers[t])
    requires s'.wanted == s.wanted && s'.done == s.done && s'.failed == s.failed && s'.lineOf == s.lineOf
    requires s'.log == s.log && s.durable <= s'.durable && (s.syncing ==> s'.syncing)
    ensures WritersInv(s')
  {
    forall i | 0 <= i < |s.writers|
      ensures WriterInv(s', s'.writers[i])
    {
      assert WriterInv(s, s.writers[i]);
    }
  }

  lemma EmitKeeps(s: State, t: nat, a: Attempt)
    requires Inv(s) && Enabled(s, Emit(t, a))
    ensures Inv(Apply(s, Emit(t, a)))
  {
    hide AckInv, WritersInv, OneBarrier, CountInv, LoopHead;
    var s1 := s.(log := s.log + [a]);
    GrownLog(s, s1);
    if a.outcome.Written? {
      var s2 := s1.(wanted := s.wanted + 1, events := s.events + 1, lineOf := s.lineOf + [|s.log|]);
      NewGeneration(s1, s2);
      LoopHeadKeeps(s2, t, s2.wanted, |s.log|, 0);
    }
  }

  lemma GrownLog(s: State, s1: State)
    requires Inv(s) && s.log <= s1.log && s1 == s.(log := s1.log)
    ensures Inv(s1)
  {
    assert forall g :: 0 <= g < s.wanted ==> s1.log[s.lineOf[g]] == s.log[s.lineOf[g]];
    assert LinesInv(s1) && AckInv(s1);
    assert WritersInv(s1) by {
      assert forall i :: 0 <= i < |s.writers| ==> WriterInv(s, s.writers[i]);
    }
  }

  lemma NewGeneration(s: State, s2: State)
    requires Inv(s) && s.log != [] && s.log[|s.log| - 1].outcome.Written?
    requires s2 == s.(wanted := s.wanted + 1, events := s.events + 1, lineOf := s.lineOf + [|s.log| - 1])
    ensures Inv(s2)
  {
    assert LinesInv(s2) && AckInv(s2);
    forall i | 0 <= i < |s.writers|
      ensures WriterInv(s2, s2.writers[i])
    {
      assert WriterInv(s, s.writers[i]);
    }
  }

  lemma ReturnKeeps(s: State, t: nat, ok: bool)
    requires Inv(s) && Enabled(s, Return(t, ok))
    ensures Inv(Apply(s, Return(t, ok)))
  {
    var w := s.writers[t];
    var s' := Apply(s, Return(t, ok));
    assert WriterInv(s, w);
    assert LinesInv(s') && AckInv(s');
    assert WriterInv(s', s'.writers[t]);
    SameWriters(s, s', t);
    assert Busy(s'.writers[t]);
    forall i, j | 0 <= i < |s.writers| && 0 <= j < |s.writers| && Busy(s'.writers[i])
      ensures ServedBy(s.done, s'.writers[j], s'.writers[i]) && (Busy(s'.writers[j]) ==> i == j)
    {
      assert Busy(s.writers[i]);
      assert ServedBy(s.done, s.writers[j], s.writers[i]);
    }
  }

  lemma PublishKeeps(s: State, t: nat)
    requires Inv(s) && Enabled(s, Publish(t))
    ensures Inv(Apply(s, Publish(t)))
  {
    var w := s.writers[t];
    assert WriterInv(s, w);
    var s1 := Published(s, t);
    PublishedInv(s, t);
    NobodyBusy(s1);
    LoopHeadKeeps(s1, t, w.need, w.at, w.waited + 1);
    var before := s1.(writers := Broadcast(s.writers, s.done));
    LoopHeadForgets(before, t, Idle, w.need, w.at, w.waited + 1);
  }

  /** The state after the broadcast, the publisher set aside. */
  function Published(s: State, t: nat): State
    requires Enabled(s, Publish(t))
  {
    var w := s.writers[t];
    s.(barriers := s.barriers + 1, syncing := false,
       failed := s.failed || !w.ok,
       done := if w.ok && s.done < w.covering then w.covering else s.done,
       writers := Broadcast(s.writers, s.done)[t := Idle],
       finished := s.finished + [Barrier(w.start, w.ok)])
  }

  lemma PublishedLines(s: State, t: nat)
    requires Inv(s) && Enabled(s, Publish(t))
    ensures LinesInv(Published(s, t)) && AckInv(Published(s, t)) && CountInv(Published(s, t))
  {
    var w := s.writers[t];
    assert WriterInv(s, w) && BarrierInv(s, w);
    var s1 := Published(s, t);
    var b := Barrier(w.start, w.ok);
    assert b in s1.finished;
    forall a: nat | Covered(s.finished, a)
      ensures Covered(s1.finished, a)
    {
      var x :| x in s.finished && x.ok && a < x.start;
      assert x in s1.finished;
    }
    forall g | 0 <= g < s1.done
      ensures s.lineOf[g] < s.durable && Covered(s1.finished, s.lineOf[g])
    {
      if g >= s.done {
        assert b.ok && s.lineOf[g] < b.start;
      }
    }
    if s1.failed && !s.failed {
      assert !b.ok;
    }
  }

  lemma PublishedInv(s: State, t: nat)
    requires Inv(s) && Enabled(s, Publish(t))
    ensures Inv(Published(s, t)) && Published(s, t).writers[t].Idle?
    ensures var w, s1 := s.writers[t], Published(s, t);
            s1.failed || s1.done >= w.need
  {
    var w := s.writers[t];
    assert WriterInv(s, w) && BarrierInv(s, w);
    var s1 := Published(s, t);
    PublishedLines(s, t);
    forall i | 0 <= i < |s.writers|
      ensures WriterInv(s1, s1.writers[i]) && !Busy(s1.writers[i])
    {
      if i != t {
        assert WriterInv(s, s.writers[i]) && !Busy(s.writers[i]);
        assert ServedBy(s.done, s.writers[i], w);
        assert s1.writers[i] == Woken(s.writers[i], s.done);
      }
    }
  }

  /** The loop head overwrites the writer's own phase. */
  lemma LoopHeadForgets(s: State, t: nat, p: Phase, need: nat, at: nat, waited: nat)
    requires t < |s.writers|
    ensures LoopHead(s.(writers := s.writers[t := p]), t, need, at, waited) == LoopHead(s, t, need, at, waited)
  {
    var ws := s.writers[t := p];
    assert ws[t := Idle] == s.writers[t := Idle];
    assert ws[t := Asleep(need, at, waited)] == s.writers[t := Asleep(need, at, waited)];
    var syncing := Syncing(need, at, waited, s.wanted, |s.log|);
    assert ws[t := syncing] == s.writers[t := syncing];
  }

  lemma SetAside(s: State, t: nat)
    requires Inv(s) && Enabled(s, Resume(t))
    ensures Inv(s.(writers := s.writers[t := Idle]))
  {
    hide Covered;
    var s1 := s.(writers := s.writers[t := Idle]);
    assert LinesInv(s1) && AckInv(s1);
    SameWriters(s, s1, t);
    if s.syncing {
      var i :| 0 <= i < |s.writers| && Busy(s.writers[i]);
      assert Busy(s1.writers[i]);
    }
  }

  lemma ResumeKeeps(s: State, t: nat)
    requires Inv(s) && Enabled(s, Resume(t))
    ensures Inv(Apply(s, Resume(t)))
  {
    hide LoopHead;
    var w := s.writers[t];
    assert WriterInv(s, w);
    var s1 := s.(writers := s.writers[t := Idle]);
    SetAside(s, t);
    forall i | 0 <= i < |s1.writers| && Busy(s1.writers[i])
      ensures ServedBy(s.done, Awake(w.need, w.at, w.waited), s1.writers[i])
    {
      assert ServedBy(s.done, w, s.writers[i]);
    }
    LoopHeadKeeps(s1, t, w.need, w.at, w.waited);
    LoopHeadForgets(s, t, Idle, w.need, w.at, w.waited);
  }

  lemma WriteBackKeeps(s: State, n: nat)
    requires Inv(s) && Enabled(s, WriteBack(n))
    ensures Inv(Apply(s, WriteBack(n)))
  {
    var s' := Apply(s, WriteBack(n));
    forall i | 0 <= i < |s.writers|
      ensures WriterInv(s', s'.writers[i])
    {
      assert WriterInv(s, s.writers[i]);
    }
  }

  lemma StepKeeps(s: State, step: Step)
    requires Inv(s) && Enabled(s, step)
    ensures Inv(Apply(s, step))
  {
    match step
    case Emit(t, a) => EmitKeeps(s, t, a);
    case Return(t, ok) => ReturnKeeps(s, t, ok);
    case Publish(t) => PublishKeeps(s, t);
    case Resume(t) => ResumeKeeps(s, t);
    case WriteBack(n) => WriteBackKeeps(s, n);
  }

  lemma {:induction false} RunKeeps(s: State, steps: seq<Step>)
    requires Inv(s) && Valid(s, steps)
    ensures Inv(Run(s, steps))
    decreases |steps|
  {
    hide Inv, Apply;
    if steps != [] {
      StepKeeps(s, steps[0]);
      RunKeeps(Apply(s, steps[0]), steps[1..]);
    }
  }

  // ---------------------------------------------------------------- results

  /** Group-commit durability. In every interleaving, an event returns OK only
      once a successful barrier has ended that began with its line already in the
      file; so a crash that keeps at least the durable prefix keeps the line. */
  lemma Durability(threads: nat, steps: seq<Step>, cut: nat)
    requires Valid(Init(threads), steps)
    requires var s := Run(Init(threads), steps); s.durable <= cut <= |s.log|
    ensures var s := Run(Init(threads), steps);
            forall a :: a in s.acked ==>
              && a < cut && s.log[a].outcome.Written?
              && exists b :: b in s.finished && b.ok && a < b.start
  {
    InitInv(threads);
    RunKeeps(Init(threads), steps);
    var s := Run(Init(threads), steps);
    forall a | a in s.acked
      ensures exists b :: b in s.finished && b.ok && a < b.start
    {
      assert Covered(s.finished, a);
    }
  }

  /** Barriers, counting one in flight, never outnumber events, and nobody sits
      through more than two while uncovered. */
  lemma BarrierEconomy(threads: nat, steps: seq<Step>)
    requires Valid(Init(threads), steps)
    ensures var s := Run(Init(threads), steps);
            && s.barriers + (if s.syncing then 1 else 0) <= s.events
            && |s.finished| == s.barriers
            && forall i :: 0 <= i < |s.writers| && Pending(s.writers[i]) ==> s.writers[i].waited <= 2
  {
    InitInv(threads);
    RunKeeps(Init(threads), steps);
    var s := Run(Init(threads), steps);
    if s.syncing {
      var i :| 0 <= i < |s.writers| && Busy(s.writers[i]);
      assert WriterInv(s, s.writers[i]) && BarrierInv(s, s.writers[i]);
    }
    forall i | 0 <= i < |s.writers| && Pending(s.writers[i])
      ensures s.writers[i].waited <= 2
    {
      assert WriterInv(s, s.writers[i]);
    }
  }

  /** Somebody asleep on the condition variable means a barrier is in flight or
      about to be published by a writer that is not asleep. */
  lemma NoLostWakeup(threads: nat, steps: seq<Step>, i: nat)
    requires Valid(Init(threads), steps)
    requires i < |Run(Init(threads), steps).writers| && Run(Init(threads), steps).writers[i].Asleep?
    ensures var s := Run(Init(threads), steps); exists j :: 0 <= j < |s.writers| && Busy(s.writers[j])
  {
    InitInv(threads);
    RunKeeps(Init(threads), steps);
    var s := Run(Init(threads), steps);
    assert WriterInv(s, s.writers[i]);
  }

  /** After one failed barrier no later event of the opening returns OK. */
  lemma {:induction false} FailureSticks(s: State, steps: seq<Step>)
    requires Valid(s, steps) && s.failed
    ensures Run(s, steps).failed && Run(s, steps).acked == s.acked
    decreases |steps|
  {
    if steps != [] {
      FailedStep(s, steps[0]);
      FailureSticks(Apply(s, steps[0]), steps[1..]);
    }
  }

  lemma FailedStep(s: State, step: Step)
    requires Enabled(s, step) && s.failed
    ensures Apply(s, step).failed && Apply(s, step).acked == s.acked
  {
  }

  // --------------------------------------------------------------- progress

  /** The steps that need no new event and no spurious wake-up. */
  predicate Productive(s: State, step: Step) {
    Enabled(s, step) && (step.Return? || step.Publish? || (step.Resume? && s.writers[step.t].Awake?))
  }

  predicate AllProductive(s: State, steps: seq<Step>)
    decreases |steps|
  {
    steps == [] || (Productive(s, steps[0]) && AllProductive(Apply(s, steps[0]), steps[1..]))
  }

  function Weight(p: Phase): nat {
    match p case Idle => 0 case Asleep(_, _, _) => 1 case Synced(_, _, _, _, _, _) => 2
            case Syncing(_, _, _, _, _) => 3 case Awake(_, _, _) => 4
  }

  function Total(ws: seq<Phase>): (r: nat)
    ensures r <= 4 * |ws|
  {
    if ws == [] then 0 else Weight(ws[0]) + Total(ws[1..])
  }

  lemma {:induction false} TotalUpdate(ws: seq<Phase>, t: nat, p: Phase)
    requires t < |ws|
    ensures Total(ws[t := p]) == Total(ws) - Weight(ws[t]) + Weight(p)
  {
    if t == 0 {
      assert ws[t := p][1..] == ws[1..];
    } else {
      assert ws[t := p][1..] == ws[1..][t - 1 := p];
      TotalUpdate(ws[1..], t - 1, p);
    }
  }

  /** Generations still to be covered, weighed against where the writers stand. */
  function Remaining(s: State): nat
    requires LinesInv(s)
  {
    (if s.failed then 0 else s.wanted - s.done + 1) * (4 * |s.writers| + 1) + Total(s.writers)
  }

  lemma LoopHeadAdvances(s: State, t: nat, need: nat, at: nat, waited: nat)
    requires t < |s.writers| && s.writers[t].Awake?
    ensures var s' := LoopHead(s, t, need, at, waited);
            Total(s'.writers) < Total(s.writers) && |s'.writers| == |s.writers|
  {
    TotalUpdate(s.writers, t, LoopHead(s, t, need, at, waited).writers[t]);
  }

  lemma PublishAdvances(s: State, t: nat)
    requires Inv(s) && Productive(s, Publish(t)) && Inv(Apply(s, Publish(t)))
    ensures Remaining(Apply(s, Publish(t))) < Remaining(s)
  {
    var s' := Apply(s, Publish(t));
    assert WriterInv(s, s.writers[t]);
    assert BarrierInv(s, s.writers[t]);
    var rest := if s'.failed then 0 else s'.wanted - s'.done + 1;
    RoundEnds(s.wanted - s.done + 1, rest, 4 * |s.writers|, Total(s.writers), Total(s'.writers));
  }

  lemma ProductiveAdvances(s: State, step: Step)
    requires Inv(s) && Productive(s, step)
    ensures LinesInv(Apply(s, step)) && Remaining(Apply(s, step)) < Remaining(s)
  {
    StepKeeps(s, step);
    var s' := Apply(s, step);
    var w := s.writers[step.t];
    assert WriterInv(s, w);
    if step.Return? {
      TotalUpdate(s.writers, step.t, s'.writers[step.t]);
    } else if step.Resume? {
      LoopHeadAdvances(s, step.t, w.need, w.at, w.waited);
    } else {
      PublishAdvances(s, step.t);
    }
  }

  lemma RoundEnds(rounds: nat, fewer: nat, cap: nat, before: nat, after: nat)
    requires fewer < rounds && after <= cap
    ensures fewer * (cap + 1) + after < rounds * (cap + 1) + before
  {
    var d := rounds - fewer;
    Distributes(fewer, d, cap + 1);
    Distributes(1, d - 1, cap + 1);
    assert (d - 1) * (cap + 1) >= 0;
  }

  lemma Distributes(a: nat, b: nat, c: nat)
    ensures (a + b) * c == a * c + b * c
  {
  }

  /** Progress: with no new event, only so many productive steps can be taken... */
  lemma {:induction false} ProgressIsBounded(s: State, steps: seq<Step>)
    requires Inv(s) && AllProductive(s, steps)
    ensures |steps| <= Remaining(s)
    decreases |steps|
  {
    hide Inv, Apply, Remaining;
    assert LinesInv(s) by { InvLines(s); }
    if steps != [] {
      ProductiveAdvances(s, steps[0]);
      ProductiveEnabled(s, steps[0]);
      StepKeeps(s, steps[0]);
      ProgressIsBounded(Apply(s, steps[0]), steps[1..]);
    }
  }

  lemma InvLines(s: State)
    requires Inv(s)
    ensures LinesInv(s)
  {
  }

  lemma ProductiveEnabled(s: State, step: Step)
    requires Productive(s, step)
    ensures Enabled(s, step)
  {
  }

  /** ... and while any event is open, one of them can be: every event returns. */
  lemma NeverStuck(s: State, i: nat) returns (step: Step)
    requires Inv(s) && i < |s.writers| && Pending(s.writers[i])
    ensures Productive(s, step)
  {
    assert WriterInv(s, s.writers[i]);
    if s.writers[i].Asleep? {
      var t :| 0 <= t < |s.writers| && Busy(s.writers[t]);
      step := if s.writers[t].Syncing? then Return(t, true) else Publish(t);
    } else if s.writers[i].Awake? {
      step := Resume(i);
    } else {
      step := if s.writers[i].Syncing? then Return(i, true) else Publish(i);
    }
  }
}
