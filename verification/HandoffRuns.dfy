/** Every interleaving of the private listener's acceptor and its workers
    (service/fhsm_service.c:2140-2309). The acceptor alone touches the wait set;
    the ring, its lock and its condition variable are shared. */
module HandoffRuns {
  import opened CText
  import opened Handoff

  datatype Acceptor = Accepting | Stopped | Gone

  datatype Worker = Awake | Asleep | Serving(c: Conn) | Exited

  /** `accepted` numbers the connections accepted so far; `closed`, `pushed` and
      `taken` are the histories of closes and of the two ends of the ring. */
  datatype State = State(depth: nat, acceptor: Acceptor, wait: seq<Conn>, ready: seq<Conn>, workers: seq<Worker>,
                         accepted: nat, closed: seq<Conn>, pushed: seq<Conn>, taken: seq<Conn>)

  datatype Step =
    | Accept                                         // into the wait set, or 503 and closed
    | Expire(spoke: seq<bool>, late: set<Conn>)      // 408 and closed
    | HangUp(i: nat)                                 // gone before it spoke
    | Speak(i: nat, woken: nat)                      // to the ring; the signal wakes sleeper `woken`
    | Stop                                           // stop flag and broadcast
    | CloseWaiting
    | Look(t: nat)                                   // a worker at the ring, under the lock
    | Finish(t: nat)                                 // the request is served
    | Stir(t: nat)                                   // spurious wake-up

  predicate SomeAsleep(ws: seq<Worker>) { exists i :: 0 <= i < |ws| && ws[i].Asleep? }

  predicate Enabled(s: State, step: Step) {
    match step
    case Accept => s.acceptor.Accepting?
    case Expire(spoke, late) => s.acceptor.Accepting? && |spoke| == |s.wait|
    case HangUp(i) => s.acceptor.Accepting? && i < |s.wait|
    case Speak(i, woken) =>
      && s.acceptor.Accepting? && i < |s.wait|
      && (SomeAsleep(s.workers) ==> woken < |s.workers| && s.workers[woken].Asleep?)
    case Stop => s.acceptor.Accepting?
    case CloseWaiting => s.acceptor.Stopped?
    case Look(t) => t < |s.workers| && s.workers[t].Awake?
    case Finish(t) => t < |s.workers| && s.workers[t].Serving?
    case Stir(t) => t < |s.workers| && s.workers[t].Asleep?
  }

  function Roused(ws: seq<Worker>): (r: seq<Worker>)
    ensures |r| == |ws|
    ensures forall i :: 0 <= i < |ws| ==> r[i] == if ws[i].Asleep? then Awake else ws[i]
  {
    seq(|ws|, i requires 0 <= i < |ws| => if ws[i].Asleep? then Awake else ws[i])
  }

  function Push(s: State, c: Conn, woken: nat): State
    requires SomeAsleep(s.workers) ==> woken < |s.workers|
  {
    if |s.ready| < s.depth then
      s.(ready := s.ready + [c], pushed := s.pushed + [c],
         workers := if SomeAsleep(s.workers) then s.workers[woken := Awake] else s.workers)
    else s.(closed := s.closed + [c])
  }

  function Apply(s: State, step: Step): State
    requires Enabled(s, step)
  {
    match step
    case Accept =>
      var c, s' := s.accepted, s.(accepted := s.accepted + 1);
      if |s.wait| >= s.depth then s'.(closed := s.closed + [c]) else s'.(wait := s.wait + [c])
    case Expire(spoke, late) =>
      var (kept, gone) := Sweep(s.wait, spoke, late, 0);
      s.(wait := kept, closed := s.closed + gone)
    case HangUp(i) => s.(wait := Without(s.wait, i), closed := s.closed + [s.wait[i]])
    case Speak(i, woken) => Push(s.(wait := Without(s.wait, i)), s.wait[i], woken)
    case Stop => s.(acceptor := Stopped, workers := Roused(s.workers))
    case CloseWaiting => s.(acceptor := Gone, wait := [], closed := s.closed + s.wait)
    case Look(t) =>
      if s.ready != [] then
        s.(ready := s.ready[1..], taken := s.taken + [s.ready[0]], workers := s.workers[t := Serving(s.ready[0])])
      else s.(workers := s.workers[t := if s.acceptor.Accepting? then Asleep else Exited])
    case Finish(t) => s.(workers := s.workers[t := Awake], closed := s.closed + [s.workers[t].c])
    case Stir(t) => s.(workers := s.workers[t := Awake])
  }

  predicate Valid(s: State, steps: seq<Step>)
    decreases |steps|
  {
    steps == [] || (Enabled(s, steps[0]) && Valid(Apply(s, steps[0]), steps[1..]))
  }

  function Run(s: State, steps: seq<Step>): State
    requires Valid(s, steps)
    decreases |steps|
  {
    if steps == [] then s else Run(Apply(s, steps[0]), steps[1..])
  }

  function Init(depth: nat, workers: nat): State {
    State(depth, Accepting, [], [], seq(workers, i => Awake), 0, [], [], [])
  }

  // ------------------------------------------------------------ conservation

  function Count(s: seq<Conn>, c: Conn): (n: nat) {
    if s == [] then 0 else (if s[0] == c then 1 else 0) + Count(s[1..], c)
  }

  lemma {:induction false} CountAppend(a: seq<Conn>, b: seq<Conn>, c: Conn)
    ensures Count(a + b, c) == Count(a, c) + Count(b, c)
  {
    if a == [] {
      assert a + b == b;
    } else {
      assert (a + b)[1..] == a[1..] + b;
      CountAppend(a[1..], b, c);
    }
  }

  lemma CountSplit(s: seq<Conn>, i: nat, c: Conn)
    requires i < |s|
    ensures Count(s, c) == Count(s[..i], c) + (if s[i] == c then 1 else 0) + Count(s[i + 1..], c)
  {
    assert s == s[..i] + ([s[i]] + s[i + 1..]);
    CountAppend(s[..i], [s[i]] + s[i + 1..], c);
    CountAppend([s[i]], s[i + 1..], c);
  }

  lemma CountWithout(s: seq<Conn>, i: nat, c: Conn)
    requires i < |s|
    ensures Count(s, c) == Count(Without(s, i), c) + if s[i] == c then 1 else 0
  {
    var last := |s| - 1;
    if i == last {
      assert Without(s, i) == s[..last];
      CountSplit(s, last, c);
    } else {
      var u := s[i := s[last]];
      CountSplit(s, i, c);
      CountSplit(u, i, c);
      CountSplit(u, last, c);
      assert u[..i] == s[..i] && u[i + 1..] == s[i + 1..];
    }
  }

  lemma {:induction false} CountSweep(wait: seq<Conn>, spoke: seq<bool>, late: set<Conn>, i: nat, c: Conn)
    requires i <= |wait| <= |spoke|
    ensures var (kept, gone) := Sweep(wait, spoke, late, i); Count(wait, c) == Count(kept, c) + Count(gone, c)
    decreases |wait| - i
  {
    if i < |wait| {
      if !spoke[i] && wait[i] in late {
        CountWithout(wait, i, c);
        CountSweep(Without(wait, i), spoke, late, i, c);
        CountAppend([wait[i]], Sweep(Without(wait, i), spoke, late, i).1, c);
      } else {
        CountSweep(wait, spoke, late, i + 1, c);
      }
    }
  }

  function ServedBy(w: Worker, c: Conn): nat { if w == Serving(c) then 1 else 0 }

  function Held(ws: seq<Worker>, c: Conn): (n: nat) {
    if ws == [] then 0 else ServedBy(ws[0], c) + Held(ws[1..], c)
  }

  lemma {:induction false} HeldUpdate(ws: seq<Worker>, t: nat, w: Worker, c: Conn)
    requires t < |ws|
    ensures Held(ws[t := w], c) == Held(ws, c) - ServedBy(ws[t], c) + ServedBy(w, c)
  {
    if t == 0 {
      assert ws[t := w][1..] == ws[1..];
    } else {
      assert ws[t := w][1..] == ws[1..][t - 1 := w];
      HeldUpdate(ws[1..], t - 1, w, c);
    }
  }

  lemma {:induction false} HeldSame(a: seq<Worker>, b: seq<Worker>, c: Conn)
    requires |a| == |b| && forall i :: 0 <= i < |a| ==> ServedBy(a[i], c) == ServedBy(b[i], c)
    ensures Held(a, c) == Held(b, c)
  {
    if a != [] {
      HeldSame(a[1..], b[1..], c);
    }
  }

  /** In how many places a connection is. */
  function Places(s: State, c: Conn): (n: nat) {
    Count(s.wait, c) + Count(s.ready, c) + Held(s.workers, c) + Count(s.closed, c)
  }

  lemma AcceptorMoves(s: State, step: Step, c: Conn)
    requires Enabled(s, step) && (step.Accept? || step.Expire? || step.HangUp? || step.CloseWaiting?)
    ensures Places(Apply(s, step), c) == Places(s, c) + if step.Accept? && c == s.accepted then 1 else 0
  {
    hide Sweep, Held;
    match step
    case Accept =>
      CountAppend(s.closed, [s.accepted], c);
      CountAppend(s.wait, [s.accepted], c);
    case Expire(spoke, late) =>
      CountSweep(s.wait, spoke, late, 0, c);
      CountAppend(s.closed, Sweep(s.wait, spoke, late, 0).1, c);
    case HangUp(i) =>
      CountWithout(s.wait, i, c);
      CountAppend(s.closed, [s.wait[i]], c);
    case CloseWaiting => CountAppend(s.closed, s.wait, c);
  }

  lemma SpeakMoves(s: State, i: nat, woken: nat, c: Conn)
    requires Enabled(s, Speak(i, woken))
    ensures Places(Apply(s, Speak(i, woken)), c) == Places(s, c)
  {
    CountWithout(s.wait, i, c);
    CountAppend(s.closed, [s.wait[i]], c);
    CountAppend(s.ready, [s.wait[i]], c);
    if SomeAsleep(s.workers) {
      HeldUpdate(s.workers, woken, Awake, c);
    }
  }

  lemma WorkerMoves(s: State, step: Step, c: Conn)
    requires Enabled(s, step) && (step.Stop? || step.Look? || step.Finish? || step.Stir?)
    ensures Places(Apply(s, step), c) == Places(s, c)
  {
    hide Held;
    match step
    case Stop => HeldSame(s.workers, Roused(s.workers), c);
    case Look(t) => HeldUpdate(s.workers, t, Apply(s, step).workers[t], c);
    case Finish(t) =>
      HeldUpdate(s.workers, t, Awake, c);
      CountAppend(s.closed, [s.workers[t].c], c);
    case Stir(t) => HeldUpdate(s.workers, t, Awake, c);
  }

  lemma StepMoves(s: State, step: Step, c: Conn)
    requires Enabled(s, step)
    ensures Places(Apply(s, step), c) == Places(s, c) + if step.Accept? && c == s.accepted then 1 else 0
  {
    hide Places, Apply;
    if step.Speak? {
      SpeakMoves(s, step.i, step.woken, c);
    } else if step.Accept? || step.Expire? || step.HangUp? || step.CloseWaiting? {
      AcceptorMoves(s, step, c);
    } else {
      WorkerMoves(s, step, c);
    }
  }

  lemma {:induction false} RunMoves(s: State, steps: seq<Step>, c: Conn)
    requires Valid(s, steps) && Places(s, c) == if c < s.accepted then 1 else 0
    ensures var s' := Run(s, steps); Places(s', c) == if c < s'.accepted then 1 else 0
    decreases |steps|
  {
    hide Places;
    if steps != [] {
      StepMoves(s, steps[0], c);
      RunMoves(Apply(s, steps[0]), steps[1..], c);
    }
  }

  // ---------------------------------------------------------------- invariant

  function UpOne(w: Worker): nat { if w.Awake? then 1 else 0 }

  function AwakeOf(ws: seq<Worker>): (n: nat) {
    if ws == [] then 0 else UpOne(ws[0]) + AwakeOf(ws[1..])
  }

  lemma {:induction false} AwakeUpdate(ws: seq<Worker>, t: nat, w: Worker)
    requires t < |ws|
    ensures AwakeOf(ws[t := w]) == AwakeOf(ws) - UpOne(ws[t]) + UpOne(w)
  {
    if t == 0 {
      assert ws[t := w][1..] == ws[1..];
    } else {
      assert ws[t := w][1..] == ws[1..][t - 1 := w];
      AwakeUpdate(ws[1..], t - 1, w);
    }
  }

  predicate Inv(s: State) {
    && |s.wait| <= s.depth && |s.ready| <= s.depth
    && s.pushed == s.taken + s.ready
    && (s.acceptor.Gone? ==> s.wait == [])
    && (forall t :: 0 <= t < |s.workers| && s.workers[t].Exited? ==> !s.acceptor.Accepting? && s.ready == [])
    && (SomeAsleep(s.workers) ==> s.acceptor.Accepting? && |s.ready| <= AwakeOf(s.workers))
  }

  lemma StepKeeps(s: State, step: Step)
    requires Inv(s) && Enabled(s, step)
    ensures Inv(Apply(s, step))
  {
    hide AwakeOf, Sweep;
    var s' := Apply(s, step);
    match step {
      case Speak(i, woken) =>
        if SomeAsleep(s.workers) {
          AwakeUpdate(s.workers, woken, Awake);
        }
      case Look(t) => AwakeUpdate(s.workers, t, s'.workers[t]);
      case Finish(t) => AwakeUpdate(s.workers, t, Awake);
      case Stir(t) => AwakeUpdate(s.workers, t, Awake);
      case _ =>
    }
    if SomeAsleep(s'.workers) && !step.Look? {
      var i :| 0 <= i < |s'.workers| && s'.workers[i].Asleep?;
      assert s.workers[i].Asleep?;
    }
  }

  lemma {:induction false} RunKeeps(s: State, steps: seq<Step>)
    requires Inv(s) && Valid(s, steps)
    ensures Inv(Run(s, steps)) && |Run(s, steps).workers| == |s.workers|
    decreases |steps|
  {
    hide Inv;
    if steps != [] {
      StepKeeps(s, steps[0]);
      RunKeeps(Apply(s, steps[0]), steps[1..]);
    }
  }

  // ------------------------------------------------------------------ results

  /** Conservation: at all times an accepted connection is in exactly one of the
      wait set, the ring, a worker's hands and the closed ones; one not yet
      accepted is in none. */
  lemma Conservation(depth: nat, workers: nat, steps: seq<Step>, c: Conn)
    requires Valid(Init(depth, workers), steps)
    ensures var s := Run(Init(depth, workers), steps);
            Count(s.wait, c) + Count(s.ready, c) + Held(s.workers, c) + Count(s.closed, c) ==
            if c < s.accepted then 1 else 0
  {
    NoneHeld(Init(depth, workers).workers, c);
    RunMoves(Init(depth, workers), steps, c);
  }

  lemma {:induction false} NoneHeld(ws: seq<Worker>, c: Conn)
    requires forall t :: 0 <= t < |ws| ==> !ws[t].Serving?
    ensures Held(ws, c) == 0
  {
    if ws != [] {
      NoneHeld(ws[1..], c);
    }
  }

  predicate Finished(s: State) {
    s.acceptor.Gone? && forall t :: 0 <= t < |s.workers| ==> s.workers[t].Exited?
  }

  /** After shutdown every accepted connection has been closed exactly once. */
  lemma ClosedExactlyOnce(depth: nat, workers: nat, steps: seq<Step>, c: Conn)
    requires workers > 0 && Valid(Init(depth, workers), steps) && Finished(Run(Init(depth, workers), steps))
    ensures var s := Run(Init(depth, workers), steps); Count(s.closed, c) == if c < s.accepted then 1 else 0
  {
    var s := Run(Init(depth, workers), steps);
    Conservation(depth, workers, steps, c);
    RunKeeps(Init(depth, workers), steps);
    assert s.workers[0].Exited?;
    NoneHeld(s.workers, c);
  }

  /** The ring is a bounded queue in every interleaving: what the workers took is,
      in order, what the acceptor pushed, less what is still there. While a worker
      sleeps, enough others are awake to empty the ring. */
  lemma FirstInFirstOut(depth: nat, workers: nat, steps: seq<Step>)
    requires Valid(Init(depth, workers), steps)
    ensures var s := Run(Init(depth, workers), steps);
            && s.pushed == s.taken + s.ready && |s.ready| <= s.depth
            && (SomeAsleep(s.workers) ==> s.acceptor.Accepting? && |s.ready| <= AwakeOf(s.workers))
  {
    RunKeeps(Init(depth, workers), steps);
  }

  // ------------------------------------------------------------- shutdown ends

  function Left(w: Worker): nat {
    match w
    case Exited => 0
    case Awake => 1
    case Asleep => 2
    case Serving(_) => 2
  }

  function LeftOf(ws: seq<Worker>): (n: nat) {
    if ws == [] then 0 else Left(ws[0]) + LeftOf(ws[1..])
  }

  lemma {:induction false} LeftUpdate(ws: seq<Worker>, t: nat, w: Worker)
    requires t < |ws|
    ensures LeftOf(ws[t := w]) == LeftOf(ws) - Left(ws[t]) + Left(w)
  {
    if t == 0 {
      assert ws[t := w][1..] == ws[1..];
    } else {
      assert ws[t := w][1..] == ws[1..][t - 1 := w];
      LeftUpdate(ws[1..], t - 1, w);
    }
  }

  /** Steps left once the stop flag is set. */
  function Remaining(s: State): (n: nat) {
    2 * |s.ready| + LeftOf(s.workers) + if s.acceptor.Gone? then 0 else 1
  }

  lemma StepSpends(s: State, step: Step)
    requires Enabled(s, step) && !s.acceptor.Accepting?
    ensures Remaining(Apply(s, step)) < Remaining(s) && !Apply(s, step).acceptor.Accepting?
  {
    hide LeftOf;
    match step
    case CloseWaiting =>
    case Look(t) => LeftUpdate(s.workers, t, Apply(s, step).workers[t]);
    case Finish(t) => LeftUpdate(s.workers, t, Awake);
    case Stir(t) => LeftUpdate(s.workers, t, Awake);
  }

  lemma {:induction false} RunSpends(s: State, steps: seq<Step>)
    requires Valid(s, steps) && !s.acceptor.Accepting?
    ensures |steps| + Remaining(Run(s, steps)) <= Remaining(s) && !Run(s, steps).acceptor.Accepting?
    decreases |steps|
  {
    hide Remaining;
    if steps != [] {
      StepSpends(s, steps[0]);
      RunSpends(Apply(s, steps[0]), steps[1..]);
    }
  }

  lemma NotStuck(s: State)
    requires Inv(s) && !s.acceptor.Accepting?
    ensures Finished(s) || exists step :: Enabled(s, step)
  {
    if s.acceptor.Stopped? {
      assert Enabled(s, CloseWaiting);
    } else if t: nat :| t < |s.workers| && !s.workers[t].Exited? {
      assert Enabled(s, if s.workers[t].Awake? then Look(t) else Finish(t));
    }
  }

  lemma InitInv(depth: nat, workers: nat)
    ensures Inv(Init(depth, workers))
  {
  }

  /** Shutdown ends: from the stop on, only so many steps are left, however they
      interleave, and when none is possible everything is finished. */
  lemma ShutdownEnds(depth: nat, workers: nat, steps: seq<Step>, more: seq<Step>)
    requires Valid(Init(depth, workers), steps)
    requires var s := Run(Init(depth, workers), steps); !s.acceptor.Accepting? && Valid(s, more)
    ensures var s := Run(Init(depth, workers), steps); var s' := Run(s, more);
            && |more| <= Remaining(s)
            && (Finished(s') || exists step :: Enabled(s', step))
  {
    hide Inv, Enabled, Remaining, Finished;
    var s := Run(Init(depth, workers), steps);
    InitInv(depth, workers);
    RunKeeps(Init(depth, workers), steps);
    RunKeeps(s, more);
    RunSpends(s, more);
    NotStuck(Run(s, more));
  }

  // ------------------------------------------------------------- who gets served

  /** A connection is turned away on arrival exactly when the wait set is full. */
  lemma AcceptedWaitsIff(s: State)
    requires Inv(s) && Enabled(s, Accept)
    ensures var s', c := Apply(s, Accept), s.accepted;
            && (s'.wait == s.wait + [c] <==> |s.wait| < s.depth)
            && (s'.closed == s.closed + [c] <==> |s.wait| == s.depth)
  {
  }

  /** Who spoke while the ring had room, in order. */
  function Heard(s: State, steps: seq<Step>): seq<Conn>
    requires Valid(s, steps)
    decreases |steps|
  {
    if steps == [] then []
    else
      var step := steps[0];
      (if step.Speak? && |s.ready| < s.depth then [s.wait[step.i]] else []) + Heard(Apply(s, step), steps[1..])
  }

  lemma {:induction false} PushedAreHeard(s: State, steps: seq<Step>)
    requires Valid(s, steps)
    ensures Run(s, steps).pushed == s.pushed + Heard(s, steps)
    decreases |steps|
  {
    hide Apply, Enabled;
    if steps != [] {
      PushedAreHeard(Apply(s, steps[0]), steps[1..]);
      StepPushes(s, steps[0]);
    }
  }

  lemma StepPushes(s: State, step: Step)
    requires Enabled(s, step)
    ensures Apply(s, step).pushed == s.pushed + if step.Speak? && |s.ready| < s.depth then [s.wait[step.i]] else []
  {
  }

  /** Only those reach a worker, and in that order: what the workers took, and then
      what the ring still holds, is who spoke while there was room. */
  lemma OnlyTheHeardAreServed(depth: nat, workers: nat, steps: seq<Step>)
    requires Valid(Init(depth, workers), steps)
    ensures var s := Run(Init(depth, workers), steps); s.taken + s.ready == Heard(Init(depth, workers), steps)
  {
    hide Apply, Enabled;
    FirstInFirstOut(depth, workers, steps);
    PushedAreHeard(Init(depth, workers), steps);
  }

  // ------------------------------------------------------------- the full ring

  /** A connection that spoke is closed unserved exactly when the ring is full ... */
  lemma SpokenIsQueuedIff(s: State, i: nat, woken: nat)
    requires Inv(s) && Enabled(s, Speak(i, woken))
    ensures var s' := Apply(s, Speak(i, woken));
            && (s'.ready == s.ready + [s.wait[i]] <==> |s.ready| < s.depth)
            && (s'.closed == s.closed + [s.wait[i]] <==> |s.ready| == s.depth)
  {
  }

  /** ... and no depth keeps the ring from filling: wait set and ring are bounded
      apart, so a connection can find the ring full although each is sized to hold
      every connection it is meant to. */
  lemma RingFillsAtAnyDepth(depth: nat, workers: nat) returns (steps: seq<Step>)
    requires depth > 0
    ensures Valid(Init(depth, workers), steps)
    ensures var s := Run(Init(depth, workers), steps); s.closed == [depth] && |s.ready| == depth
  {
    var fill := Fill(depth, workers, depth);
    var s := Run(Init(depth, workers), fill);
    steps := fill + [Accept, Speak(0, 0)];
    assert Valid(Apply(s, Accept), [Speak(0, 0)]);
    assert [Accept, Speak(0, 0)][1..] == [Speak(0, 0)];
    RunAppend(Init(depth, workers), fill, [Accept, Speak(0, 0)]);
    assert Apply(Apply(s, Accept), Speak(0, 0)).closed == [depth];
  }

  lemma {:induction false} Fill(depth: nat, workers: nat, k: nat) returns (steps: seq<Step>)
    requires k <= depth
    ensures Valid(Init(depth, workers), steps)
    ensures var s := Run(Init(depth, workers), steps);
            && s.depth == depth && s.acceptor.Accepting? && s.wait == [] && s.closed == []
            && |s.ready| == s.accepted == k && !SomeAsleep(s.workers)
  {
    steps := [];
    if k > 0 {
      var before := Fill(depth, workers, k - 1);
      var s := Run(Init(depth, workers), before);
      var two := [Accept, Speak(0, 0)];
      assert Valid(Apply(s, Accept), [Speak(0, 0)]);
      assert two[1..] == [Speak(0, 0)];
      RunAppend(Init(depth, workers), before, two);
      steps := before + two;
    }
  }

  lemma {:induction false} RunAppend(s: State, a: seq<Step>, b: seq<Step>)
    requires Valid(s, a) && Valid(Run(s, a), b)
    ensures Valid(s, a + b) && Run(s, a + b) == Run(Run(s, a), b)
    decreases |a|
  {
    if a == [] {
      assert a + b == b;
    } else {
      assert (a + b)[1..] == a[1..] + b;
      RunAppend(Apply(s, a[0]), a[1..], b);
    }
  }
}
