/** The burst compressor (service/fhsm_service.c:2071-2126): of a run of refusals
    the first is written, the rest are counted, and one closing line gives the
    count once the burst has been quiet for a while or the acceptor stops. */
module Burst {
  const COOLDOWN_S := 5

  datatype Burst = Burst(open: bool, count: nat, since: int, last: int)

  datatype Line = Opening(at: int) | Closing(at: int, refused: nat, window: int)

  const QUIET := Burst(false, 0, 0, 0)

  /** One burst kind after a refusal at `now`, and what is written. */
  function Noted(b: Burst, now: int): (Burst, seq<Line>) {
    if b.open then (b.(count := b.count + 1, last := now), [])
    else (Burst(true, 1, now, now), [Opening(now)])
  }

  function Flushed(b: Burst, now: int, force: bool): (Burst, seq<Line>) {
    if b.open && (force || now - b.last >= COOLDOWN_S) then
      (b.(open := false, count := 0), [Closing(now, b.count, b.last - b.since)])
    else (b, [])
  }

  /** Both kinds, as the listener holds them. */
  class Bursts {
    var burst: seq<Burst>
    var lines: seq<seq<Line>>    // what was written, per kind

    ghost predicate Valid()
      reads this
    {
      |burst| == |lines| == 2
    }

    constructor ()
      ensures Valid() && burst == [QUIET, QUIET] && lines == [[], []]
    {
      burst := [QUIET, QUIET];
      lines := [[], []];
    }

    method Note(kind: nat, now: int)
      requires Valid() && kind < 2
      modifies this
      ensures Valid() && burst[1 - kind] == old(burst)[1 - kind] && lines[1 - kind] == old(lines)[1 - kind]
      ensures var (b, new_) := Noted(old(burst)[kind], now); burst[kind] == b && lines[kind] == old(lines)[kind] + new_
    {
      var b := burst[kind];
      if !b.open {
        lines := lines[kind := lines[kind] + [Opening(now)]];
        b := Burst(true, 0, now, b.last);
      }
      b := b.(count := b.count + 1, last := now);
      burst := burst[kind := b];
    }

    method Flush(now: int, force: bool)
      requires Valid()
      modifies this
      ensures Valid()
      ensures forall k :: 0 <= k < 2 ==>
                var (b, new_) := Flushed(old(burst)[k], now, force);
                burst[k] == b && lines[k] == old(lines)[k] + new_
    {
      for k := 0 to 2
        invariant Valid()
        invariant forall j :: k <= j < 2 ==> burst[j] == old(burst)[j] && lines[j] == old(lines)[j]
        invariant forall j :: 0 <= j < k ==>
                    var (b, new_) := Flushed(old(burst)[j], now, force);
                    burst[j] == b && lines[j] == old(lines)[j] + new_
      {
        var b := burst[k];
        if b.open && (force || now - b.last >= COOLDOWN_S) {
          lines := lines[k := lines[k] + [Closing(now, b.count, b.last - b.since)]];
          burst := burst[k := b.(open := false, count := 0)];
        }
      }
    }
  }

  // ---------------------------------------------------------------- one kind's runs

  datatype Op = Note(now: int) | Flush(now: int)

  datatype State = State(b: Burst, lines: seq<Line>)

  const START := State(QUIET, [])

  function Apply(s: State, op: Op): State {
    var (b, new_) := if op.Note? then Noted(s.b, op.now) else Flushed(s.b, op.now, false);
    State(b, s.lines + new_)
  }

  function Run(ops: seq<Op>): State {
    if ops == [] then START else Apply(Run(ops[..|ops| - 1]), ops[|ops| - 1])
  }

  /** The acceptor's last act for this kind. */
  function Stopped(ops: seq<Op>, now: int): State {
    var s := Run(ops);
    var (b, new_) := Flushed(s.b, now, true);
    State(b, s.lines + new_)
  }

  function Notes(ops: seq<Op>): nat {
    if ops == [] then 0 else Notes(ops[..|ops| - 1]) + if ops[|ops| - 1].Note? then 1 else 0
  }

  /** The refusals the closing lines account for. */
  function Accounted(lines: seq<Line>): nat {
    if lines == [] then 0
    else Accounted(lines[..|lines| - 1]) + if lines[|lines| - 1].Closing? then lines[|lines| - 1].refused else 0
  }

  lemma AccountedMore(lines: seq<Line>, l: Line)
    ensures Accounted(lines + []) == Accounted(lines)
    ensures Accounted(lines + [l]) == Accounted(lines) + if l.Closing? then l.refused else 0
  {
    assert lines + [] == lines;
    assert (lines + [l])[..|lines|] == lines;
  }

  lemma {:induction false} NothingMissed(ops: seq<Op>)
    ensures var s := Run(ops); Accounted(s.lines) + (if s.b.open then s.b.count else 0) == Notes(ops)
  {
    if ops != [] {
      var before, op := ops[..|ops| - 1], ops[|ops| - 1];
      NothingMissed(before);
      var s := Run(before);
      AccountedMore(s.lines, Opening(op.now));
      AccountedMore(s.lines, Closing(op.now, s.b.count, s.b.last - s.b.since));
    }
  }

  /** Compression is lossless: after the forced flush the closing lines account
      for exactly the refusals noted, whatever the clock did. */
  lemma Lossless(ops: seq<Op>, now: int)
    ensures Accounted(Stopped(ops, now).lines) == Notes(ops) && !Stopped(ops, now).b.open
  {
    NothingMissed(ops);
    var s := Run(ops);
    AccountedMore(s.lines, Closing(now, s.b.count, s.b.last - s.b.since));
  }

  // ------------------------------------------------------------- what lines tell

  /** The refusals of the open burst by time, kept one by one: a flush ends it once
      the last is five seconds old. */
  function Waiting(ops: seq<Op>): seq<int> {
    if ops == [] then []
    else
      var w, op := Waiting(ops[..|ops| - 1]), ops[|ops| - 1];
      if op.Note? then w + [op.now] else if Ends(w, op.now) then [] else w
  }

  predicate Ends(w: seq<int>, now: int) { w != [] && now - w[|w| - 1] >= 5 }

  /** The line that closes a burst: how many refusals, and from the first to the last. */
  function Summary(w: seq<int>, now: int): Line
    requires w != []
  {
    Closing(now, |w|, w[|w| - 1] - w[0])
  }

  function Written(ops: seq<Op>): seq<Line> {
    if ops == [] then []
    else
      var w, op := Waiting(ops[..|ops| - 1]), ops[|ops| - 1];
      Written(ops[..|ops| - 1]) +
      if op.Note? then (if w == [] then [Opening(op.now)] else [])
      else if Ends(w, op.now) then [Summary(w, op.now)] else []
  }

  predicate Counts(b: Burst, w: seq<int>) {
    (b.open <==> w != []) && (w != [] ==> b.count == |w| && b.since == w[0] && b.last == w[|w| - 1])
  }

  lemma {:induction false} CountersSuffice(ops: seq<Op>)
    ensures Counts(Run(ops).b, Waiting(ops)) && Run(ops).lines == Written(ops)
  {
    if ops != [] {
      CountersSuffice(ops[..|ops| - 1]);
    }
  }

  /** Four counters write what the whole list of refusals would: every opening and
      closing line, its count and its span, and at a stop the rest. */
  lemma LinesTell(ops: seq<Op>, now: int)
    ensures Run(ops).lines == Written(ops)
    ensures Stopped(ops, now).lines ==
            Written(ops) + if Waiting(ops) == [] then [] else [Summary(Waiting(ops), now)]
  {
    hide Run, Written, Waiting;
    CountersSuffice(ops);
  }

  // -------------------------------------------------------------------- the rate

  predicate Ordered(ops: seq<Op>) { forall i, j :: 0 <= i <= j < |ops| ==> ops[i].now <= ops[j].now }

  /** The times of the opening lines, or of the closing ones. */
  function Times(lines: seq<Line>, opening: bool): (ts: seq<int>) {
    if lines == [] then []
    else
      var l := lines[|lines| - 1];
      Times(lines[..|lines| - 1], opening) + if l.Opening? == opening then [l.at] else []
  }

  predicate In(t: int, a: int, b: int) { a <= t <= b }

  function InWindow(lines: seq<Line>, a: int, b: int): nat {
    if lines == [] then 0
    else InWindow(lines[..|lines| - 1], a, b) + if In(lines[|lines| - 1].at, a, b) then 1 else 0
  }

  function CountIn(ts: seq<int>, a: int, b: int): nat {
    if ts == [] then 0 else CountIn(ts[..|ts| - 1], a, b) + if In(ts[|ts| - 1], a, b) then 1 else 0
  }

  lemma {:induction false} WindowSplits(lines: seq<Line>, a: int, b: int)
    ensures InWindow(lines, a, b) == CountIn(Times(lines, true), a, b) + CountIn(Times(lines, false), a, b)
  {
    if lines != [] {
      var before, l := lines[..|lines| - 1], lines[|lines| - 1];
      WindowSplits(before, a, b);
      var ts := Times(before, l.Opening?);
      assert (ts + [l.at])[..|ts|] == ts;
      assert Times(before, !l.Opening?) + [] == Times(before, !l.Opening?);
    }
  }

  predicate Gapped(ts: seq<int>) { forall i :: 0 <= i < |ts| - 1 ==> ts[i] + COOLDOWN_S <= ts[i + 1] }

  lemma {:induction false} GappedCount(ts: seq<int>, a: int, b: int)
    requires Gapped(ts) && a <= b
    ensures ts == [] ==> CountIn(ts, a, b) == 0
    ensures ts != [] ==>
              var t := if ts[|ts| - 1] <= b then ts[|ts| - 1] else b;
              CountIn(ts, a, b) <= 0 || CountIn(ts, a, b) <= 1 + (t - a) / COOLDOWN_S
  {
    if ts != [] {
      GappedCount(ts[..|ts| - 1], a, b);
    }
  }

  predicate LastAtMost(ts: seq<int>, t: int) { ts != [] ==> ts[|ts| - 1] <= t }

  /** Openings, and closings, are `COOLDOWN_S` apart, and they alternate. */
  predicate Spaced(s: State, now: int) {
    var opens, closes := Times(s.lines, true), Times(s.lines, false);
    && Gapped(opens) && Gapped(closes)
    && if s.b.open
       then opens != [] && opens[|opens| - 1] == s.b.since <= s.b.last <= now && LastAtMost(closes, s.b.since)
       else
         && LastAtMost(closes, now)
         && (opens != [] ==> closes != [] && opens[|opens| - 1] + COOLDOWN_S <= closes[|closes| - 1])
  }

  lemma TimesMore(lines: seq<Line>, l: Line)
    ensures Times(lines + [], true) == Times(lines, true) && Times(lines + [], false) == Times(lines, false)
    ensures Times(lines + [l], l.Opening?) == Times(lines, l.Opening?) + [l.at]
    ensures Times(lines + [l], !l.Opening?) == Times(lines, !l.Opening?)
  {
    assert lines + [] == lines;
    assert (lines + [l])[..|lines|] == lines;
  }

  lemma GapMore(ts: seq<int>, t: int)
    requires Gapped(ts) && LastAtMost(ts, t - COOLDOWN_S)
    ensures Gapped(ts + [t])
  {
  }

  lemma NoteSpaced(s: State, now: int)
    requires Spaced(s, now)
    ensures Spaced(Apply(s, Note(now)), now)
  {
    hide Times, Gapped;
    TimesMore(s.lines, Opening(now));
    if !s.b.open {
      GapMore(Times(s.lines, true), now);
    }
  }

  lemma FlushSpaced(s: State, now: int)
    requires Spaced(s, now)
    ensures Spaced(Apply(s, Flush(now)), now)
  {
    hide Times, Gapped;
    TimesMore(s.lines, Closing(now, s.b.count, s.b.last - s.b.since));
    if s.b.open && now - s.b.last >= COOLDOWN_S {
      GapMore(Times(s.lines, false), now);
    }
  }

  lemma {:induction false} RunSpaced(ops: seq<Op>, now: int)
    requires Ordered(ops) && (ops != [] ==> ops[|ops| - 1].now <= now)
    ensures Spaced(Run(ops), now)
  {
    hide Times, Gapped;
    if ops != [] {
      var before, op := ops[..|ops| - 1], ops[|ops| - 1];
      RunSpaced(before, op.now);
      hide Apply;
      if op.Note? {
        NoteSpaced(Run(before), op.now);
      } else {
        FlushSpaced(Run(before), op.now);
      }
    } else {
      StartSpaced(now);
    }
  }

  lemma StartSpaced(now: int)
    ensures Spaced(START, now)
  {
  }

  /** No more than two lines per started interval of `COOLDOWN_S` seconds. */
  ghost predicate RateBounded(lines: seq<Line>) {
    forall a, b :: a <= b ==> InWindow(lines, a, b) <= 2 * (1 + (b - a) / COOLDOWN_S)
  }

  lemma GappedWindow(lines: seq<Line>, a: int, b: int)
    requires Gapped(Times(lines, true)) && Gapped(Times(lines, false)) && a <= b
    ensures InWindow(lines, a, b) <= 2 * (1 + (b - a) / COOLDOWN_S)
  {
    hide Gapped, Times, CountIn, InWindow;
    WindowSplits(lines, a, b);
    GappedFits(Times(lines, true), a, b);
    GappedFits(Times(lines, false), a, b);
  }

  lemma GappedFits(ts: seq<int>, a: int, b: int)
    requires Gapped(ts) && a <= b
    ensures CountIn(ts, a, b) <= 1 + (b - a) / COOLDOWN_S
  {
    hide Gapped, CountIn;
    GappedCount(ts, a, b);
  }

  lemma GappedRate(lines: seq<Line>)
    requires Gapped(Times(lines, true)) && Gapped(Times(lines, false))
    ensures RateBounded(lines)
  {
    hide Gapped, Times, InWindow;
    forall a, b | a <= b
      ensures InWindow(lines, a, b) <= 2 * (1 + (b - a) / COOLDOWN_S)
    {
      GappedWindow(lines, a, b);
    }
  }

  /** The lines of one kind are bounded in every window, while the acceptor runs. */
  lemma LineRate(ops: seq<Op>)
    requires Ordered(ops)
    ensures RateBounded(Run(ops).lines)
  {
    if ops != [] {
      RunSpaced(ops, ops[|ops| - 1].now);
    }
    GappedRate(Run(ops).lines);
  }

  lemma CountLast(ts: seq<int>, a: int, b: int)
    requires ts != [] && In(ts[|ts| - 1], a, b)
    ensures CountIn(ts, a, b) >= 1
  {
  }

  /** The closing line a stop forces out keeps that rate if and only if it does
      not follow the previous closing line too soon. */
  lemma RateAtStopIff(ops: seq<Op>, now: int)
    requires Ordered(ops) && (ops != [] ==> ops[|ops| - 1].now <= now)
    ensures var s, closes := Run(ops), Times(Run(ops).lines, false);
            RateBounded(Stopped(ops, now).lines) <==>
            !s.b.open || closes == [] || closes[|closes| - 1] + COOLDOWN_S <= now
  {
    hide Times, InWindow, CountIn, RateBounded, Gapped, Run;
    var s, closes := Run(ops), Times(Run(ops).lines, false);
    RunSpaced(ops, now);
    TimesMore(s.lines, Closing(now, s.b.count, s.b.last - s.b.since));
    if s.b.open && closes != [] && closes[|closes| - 1] + COOLDOWN_S > now {
      ThreeLines(Stopped(ops, now).lines, closes, closes[|closes| - 1], now);
    } else {
      if s.b.open {
        GapMore(closes, now);
      }
      GappedRate(Stopped(ops, now).lines);
    }
  }

  lemma ThreeLines(lines: seq<Line>, closes: seq<int>, a: int, b: int)
    requires a <= b < a + COOLDOWN_S && closes != [] && closes[|closes| - 1] == a && Times(lines, false) == closes + [b]
    requires Times(lines, true) != [] && In(Times(lines, true)[|Times(lines, true)| - 1], a, b)
    ensures !RateBounded(lines)
  {
    WindowSplits(lines, a, b);
    CountLast(Times(lines, true), a, b);
    CountLast(closes, a, b);
    assert (closes + [b])[..|closes|] == closes;
    assert InWindow(lines, a, b) >= 3;
  }

  /** One line more than the rate allows is all a stop can add. */
  lemma RateAtStop(ops: seq<Op>, now: int, a: int, b: int)
    requires Ordered(ops) && a <= b
    ensures InWindow(Stopped(ops, now).lines, a, b) <= 2 * (1 + (b - a) / COOLDOWN_S) + 1
  {
    LineRate(ops);
    var s, s' := Run(ops), Stopped(ops, now);
    if s.b.open {
      assert s'.lines[..|s.lines|] == s.lines;
    } else {
      assert s'.lines == s.lines;
    }
  }
}
