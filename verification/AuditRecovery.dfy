/** The commit protocol and the chain together: what a crash leaves. */
module AuditRecovery {
  import opened CText
  import AuditLine
  import opened AuditChain
  import opened AuditIntegrity
  import opened AuditTorn
  import opened AuditCommit

  /** An accepted log shows the attempt: one of its lines authenticates the body. */
  predicate Shows(mac: Mac, o: Opening, n: nat, a: nat)
    requires n <= |o| && a < |o|
  {
    var lines := Lines(Text(mac, o, n));
    exists i :: 0 <= i < |lines| && Authenticated(lines[i]) == BodyOf(mac, o, a)
  }

  /** Lines before the first failed attempt are always shown in their place ... */
  lemma ShownBefore(mac: Mac, o: Opening, n: nat, a: nat)
    requires Logged(mac, o, n) && a < FirstFailed(o, n)
    ensures |Lines(Text(mac, o, n))| > a && Lines(Text(mac, o, n))[a] == ShownOf(mac, o, a)
    ensures Authenticated(ShownOf(mac, o, a)) == BodyOf(mac, o, a) && Shows(mac, o, n, a)
  {
    hide Lines, Text, ShownOf, BodyOf, Authenticated, Prev, GoodEvent, Clean, LineOf;
    LinesAround(mac, o, n);
    ShownIs(mac, o, a);
    HonestLink(mac, a + 1, o[a].ev, Prev(mac, o, a));
  }

  /** ... and no later one is, in an accepted log without a clash. */
  lemma NotShownBehind(mac: Mac, o: Opening, n: nat, a: nat)
    requires n < U64 && Logged(mac, o, n) && Accepted(mac, Text(mac, o, n)) && !Clash(mac, o, n)
    requires FirstFailed(o, n) < a < n
    ensures !Shows(mac, o, n, a)
  {
    hide Lines, Text, ShownOf, BodyOf, Authenticated, Prev, GoodEvent, Clean, LineOf, Accepted, Clash, PrevField;
    var lines, f := Lines(Text(mac, o, n)), FirstFailed(o, n);
    NoSecondLine(mac, o, n);
    forall i | 0 <= i < |lines|
      ensures Authenticated(lines[i]) != BodyOf(mac, o, a)
    {
      if i < f {
        ShownBefore(mac, o, n, i);
      } else {
        AcceptedBody(mac, o, n, i);
      }
      if BodyOf(mac, o, i) == BodyOf(mac, o, a) {
        BodyTellsPosition(mac, o, i, o, a);
      }
    }
  }

  /** Whatever a crash keeps beyond the durable prefix, cut at a line boundary, holds
      in its place the line of every event acknowledged before the first failed
      attempt; the verifier accepts it if it is readable, and so in every run without
      a failed write, where it holds the line of every acknowledged event. */
  lemma CrashLeavesAnIntactLog(threads: nat, steps: seq<Step>, mac: Mac, cut: nat)
    requires Valid(Init(threads), steps)
    requires var s := Run(Init(threads), steps);
             s.durable <= cut <= |s.log| && Logged(mac, s.log, cut)
    ensures var s := Run(Init(threads), steps);
            var kept, f := Text(mac, s.log, cut), FirstFailed(s.log, cut);
            && (Readable(mac, s.log, cut) ==> Accepted(mac, kept))
            && (f == cut ==> Readable(mac, s.log, cut) && |Lines(kept)| == cut)
            && forall a :: a in s.acked ==> a < cut && (a < f ==> ShownAt(mac, s.log, Lines(kept), a))
  {
    hide Run, Valid, Lines, Text, Accepted, Logged, ShownAt, Readable;
    var s := Run(Init(threads), steps);
    Durability(threads, steps, cut);
    if Readable(mac, s.log, cut) {
      ReadableAccepted(mac, s.log, cut);
    }
    if FirstFailed(s.log, cut) == cut {
      NothingFailed(mac, s.log, cut);
    }
    forall a | a in s.acked && a < FirstFailed(s.log, cut)
      ensures ShownAt(mac, s.log, Lines(Text(mac, s.log, cut)), a)
    {
      InPlace(mac, s.log, cut, a);
    }
  }

  predicate ShownAt(mac: Mac, o: Opening, lines: seq<string>, a: nat)
    requires a < |o|
  {
    a < |lines| && lines[a] == ShownOf(mac, o, a)
  }

  lemma InPlace(mac: Mac, o: Opening, n: nat, a: nat)
    requires Logged(mac, o, n) && a < FirstFailed(o, n)
    ensures ShownAt(mac, o, Lines(Text(mac, o, n)), a)
  {
    hide Lines, Text, ShownOf;
    ShownBefore(mac, o, n, a);
  }

  lemma NothingFailed(mac: Mac, o: Opening, n: nat)
    requires Logged(mac, o, n) && FirstFailed(o, n) == n
    ensures Readable(mac, o, n) && |Lines(Text(mac, o, n))| == n
  {
    hide Lines, Text, LineOf, BodyOf;
    LinesAround(mac, o, n);
    OneLineIff("");
  }

  /** Runs with failed writes: of a log that a crash leaves and the verifier accepts,
      an acknowledged event is shown if and only if it was recorded before the first
      failed attempt. */
  lemma AcknowledgedShownIff(threads: nat, steps: seq<Step>, mac: Mac, cut: nat)
    requires Valid(Init(threads), steps)
    requires var s := Run(Init(threads), steps);
             && s.durable <= cut <= |s.log| && cut < U64 && Logged(mac, s.log, cut)
             && Accepted(mac, Text(mac, s.log, cut)) && !Clash(mac, s.log, cut)
    ensures var s := Run(Init(threads), steps);
            forall a :: a in s.acked ==> a < cut && (Shows(mac, s.log, cut, a) <==> a < FirstFailed(s.log, cut))
  {
    hide Run, Valid, Lines, Text, Accepted, Clash, Shows, Logged;
    var s := Run(Init(threads), steps);
    Durability(threads, steps, cut);
    forall a | a in s.acked
      ensures Shows(mac, s.log, cut, a) <==> a < FirstFailed(s.log, cut)
    {
      if a < FirstFailed(s.log, cut) {
        ShownBefore(mac, s.log, cut, a);
      } else {
        NotShownBehind(mac, s.log, cut, a);
      }
    }
  }

  /** Any event, its write cut by the last one, two or three bytes of its line. */
  function CutShort(mac: Mac, ev: AuditLine.Event, missing: nat): Attempt
    requires missing <= 3
  {
    Attempt(ev, Torn(|AuditLine.Body(1, ev, mac(INIT))| + 75 - missing))
  }

  lemma CutShortIsLogged(mac: Mac, ev: AuditLine.Event, missing: nat, next: AuditLine.Event)
    requires 1 <= missing <= 3 && GoodEvent(ev) && Clean(ev) && GoodEvent(next) && Clean(next)
    ensures var o := [CutShort(mac, ev, missing), Attempt(next, Written)];
            Logged(mac, o, 2) && o[0].outcome.kept >= |BodyOf(mac, o, 0)| + 72
  {
    hide LineOf, AuditLine.Body, GoodEvent, Clean;
    LineLength(mac, [CutShort(mac, ev, missing), Attempt(next, Written)], 0);
  }

  /** Events that are not shown exist: whenever a write loses no more than the last
      three bytes of its line, and the next event is written, made durable and
      acknowledged, the file is accepted and does not show that event. */
  lemma AcknowledgedNotShown(mac: Mac, ev: AuditLine.Event, missing: nat, next: AuditLine.Event)
    requires 1 <= missing <= 3 && GoodEvent(ev) && Clean(ev) && GoodEvent(next) && Clean(next)
    ensures var torn, whole := CutShort(mac, ev, missing), Attempt(next, Written);
            var steps := [Emit(0, torn), Emit(0, whole), Return(0, true), Publish(0)];
            && Valid(Init(1), steps)
            && var s := Run(Init(1), steps);
               && s.log == [torn, whole] && s.acked == {1} && s.durable == 2
               && Accepted(mac, Text(mac, s.log, 2)) && !Shows(mac, s.log, 2, 1)
  {
    hide Lines, Text, Accepted, BodyOf, Authenticated, Logged, GoodEvent, Clean, AuditLine.Body;
    var torn, whole := CutShort(mac, ev, missing), Attempt(next, Written);
    var o := [torn, whole];
    CutShortIsLogged(mac, ev, missing, next);
    ShortRun(torn, whole);
    LineIsSwallowed(mac, o);
    assert BodyOf(mac, o, 0) != BodyOf(mac, o, 1) by {
      if BodyOf(mac, o, 0) == BodyOf(mac, o, 1) {
        BodyTellsPosition(mac, o, 0, o, 1);
      }
    }
  }

  lemma ShortRun(torn: Attempt, next: Attempt)
    requires torn.outcome.Torn? && next.outcome.Written?
    ensures var steps := [Emit(0, torn), Emit(0, next), Return(0, true), Publish(0)];
            && Valid(Init(1), steps)
            && var s := Run(Init(1), steps); s.log == [torn, next] && s.acked == {1} && s.durable == 2
  {
    var s0 := Init(1);
    var e1, e2 := Emit(0, torn), Emit(0, next);
    var steps: seq<Step> := [e1, e2, Return(0, true), Publish(0)];
    var s1 := Apply(s0, e1);
    assert s1.writers == [Idle] && s1.log == [torn];
    var s2 := Apply(s1, e2);
    assert s2.writers == [Syncing(1, 1, 0, 1, 2)] && s2.log == [torn, next];
    var s3 := Apply(s2, Return(0, true));
    assert s3.writers == [Synced(1, 1, 0, 1, 2, true)] && s3.durable == 2;
    var s4 := Apply(s3, Publish(0));
    assert s4.acked == {1};
    assert steps[1..][1..] == steps[2..] && steps[2..][1..] == steps[3..] && steps[3..][1..] == [];
    hide Apply;
    assert Valid(s3, steps[3..]) && Run(s3, steps[3..]) == s4;
    assert Valid(s2, steps[2..]) && Run(s2, steps[2..]) == s4;
    assert Valid(s1, steps[1..]) && Run(s1, steps[1..]) == s4;
  }
}
