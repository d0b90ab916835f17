/** Connections on the private listener (service/fhsm_service.c:2140-2309): the
    acceptor holds silent ones in `wait`, hands those that spoke to the workers
    through the `ready` ring, and closes the rest. Descriptor numbers are reused
    by the system, so connections are named by their order of acceptance. */
module Handoff {
  import opened CText

  type Conn = nat

  // ------------------------------------------------------- the expiry pass

  /** Swap-removal: the last entry takes the place of entry `i`. */
  function Without(wait: seq<Conn>, i: nat): (r: seq<Conn>)
    requires i < |wait|
    ensures |r| == |wait| - 1
  {
    wait[i := wait[|wait| - 1]][..|wait| - 1]
  }

  /** The expiry pass from position `i`: who still waits, and who was closed.
      `spoke` is read by position, as poll left it; `late` holds the connections
      whose deadline had passed when they were looked at. */
  function Sweep(wait: seq<Conn>, spoke: seq<bool>, late: set<Conn>, i: nat): (r: (seq<Conn>, seq<Conn>))
    requires i <= |wait| <= |spoke|
    ensures |r.0| + |r.1| == |wait|
    decreases |wait| - i
  {
    if i == |wait| then (wait, [])
    else if !spoke[i] && wait[i] in late then
      var (kept, closed) := Sweep(Without(wait, i), spoke, late, i);
      (kept, [wait[i]] + closed)
    else Sweep(wait, spoke, late, i + 1)
  }

  predicate Silent(wait: seq<Conn>, spoke: seq<bool>, late: set<Conn>, i: nat)
    requires i < |wait| <= |spoke|
  {
    wait[i] in late && !spoke[i]
  }

  /** Late and silent connections before position `k`. */
  function SilentBefore(wait: seq<Conn>, spoke: seq<bool>, late: set<Conn>, k: nat): (n: nat)
    requires k <= |wait| <= |spoke|
  {
    if k == 0 then 0
    else SilentBefore(wait, spoke, late, k - 1) + if Silent(wait, spoke, late, k - 1) then 1 else 0
  }

  /** Connections within their deadline from position `k` on. */
  function PunctualFrom(wait: seq<Conn>, late: set<Conn>, k: nat): (n: nat)
    requires k <= |wait|
    decreases |wait| - k
  {
    if k == |wait| then 0 else PunctualFrom(wait, late, k + 1) + if wait[k] !in late then 1 else 0
  }

  /** A late connection goes when it is silent - or when the silent ones before
      it outnumber the punctual ones behind it. */
  predicate Dropped(wait: seq<Conn>, spoke: seq<bool>, late: set<Conn>, j: nat)
    requires j < |wait| <= |spoke|
  {
    wait[j] in late && (!spoke[j] || SilentBefore(wait, spoke, late, j) > PunctualFrom(wait, late, j + 1))
  }

  predicate DroppedIn(wait: seq<Conn>, spoke: seq<bool>, late: set<Conn>, lo: nat, hi: nat, c: Conn)
    requires hi <= |wait| <= |spoke|
  {
    exists j :: lo <= j < hi && c == wait[j] && Dropped(wait, spoke, late, j)
  }

  predicate Distinct(s: seq<Conn>) { forall i, j :: 0 <= i < |s| && 0 <= j < |s| && s[i] == s[j] ==> i == j }

  lemma {:induction false} SilentGrows(wait: seq<Conn>, spoke: seq<bool>, late: set<Conn>, i: nat, j: nat)
    requires i <= j <= |wait| <= |spoke|
    ensures SilentBefore(wait, spoke, late, i) <= SilentBefore(wait, spoke, late, j)
  {
    if i < j {
      SilentGrows(wait, spoke, late, i, j - 1);
    }
  }

  lemma {:induction false} PunctualShrinks(wait: seq<Conn>, late: set<Conn>, i: nat, j: nat)
    requires i <= j <= |wait|
    ensures PunctualFrom(wait, late, i) >= PunctualFrom(wait, late, j)
    decreases j - i
  {
    if i < j {
      PunctualShrinks(wait, late, i + 1, j);
    }
  }

  predicate Agree(cur: seq<Conn>, wait: seq<Conn>, i: nat) {
    |cur| <= |wait| && forall k :: i <= k < |cur| ==> cur[k] == wait[k]
  }

  /** Positions `i` and on still hold the original entries, up to the end of `cur`. */
  lemma {:induction false} SweepOriginal(wait: seq<Conn>, spoke: seq<bool>, late: set<Conn>, cur: seq<Conn>, i: nat)
    requires |wait| == |spoke| && Distinct(wait) && i <= |cur| && Agree(cur, wait, i)
    requires PunctualFrom(wait, late, |cur|) == SilentBefore(wait, spoke, late, i)
    ensures forall c :: c in Sweep(cur, spoke, late, i).1 <==> DroppedIn(wait, spoke, late, i, |cur|, c)
    decreases |cur| - i, 1
  {
    if i < |cur| {
      if Silent(wait, spoke, late, i) {
        if i < |cur| - 1 {
          SweepMoved(wait, spoke, late, Without(cur, i), i);
        }
      } else {
        PunctualShrinks(wait, late, i + 1, |cur|);
        SweepOriginal(wait, spoke, late, cur, i + 1);
      }
    }
  }

  /** Position `i` holds the entry that followed the end of `cur`. */
  lemma {:induction false} SweepMoved(wait: seq<Conn>, spoke: seq<bool>, late: set<Conn>, cur: seq<Conn>, i: nat)
    requires |wait| == |spoke| && Distinct(wait) && i < |cur| < |wait| && Silent(wait, spoke, late, i)
    requires cur[i] == wait[|cur|] && Agree(cur, wait, i + 1)
    requires PunctualFrom(wait, late, |cur| + 1) == SilentBefore(wait, spoke, late, i)
    ensures forall c :: c in Sweep(cur, spoke, late, i).1 <==> DroppedIn(wait, spoke, late, i + 1, |cur| + 1, c)
    decreases |cur| - i, 0
  {
    SilentGrows(wait, spoke, late, i + 1, |cur|);
    if cur[i] in late {
      if i < |cur| - 1 {
        SweepMoved(wait, spoke, late, Without(cur, i), i);
      }
    } else {
      SweepOriginal(wait, spoke, late, cur, i + 1);
    }
  }

  /** Exactly which connections the expiry pass closes. */
  lemma SweepExact(wait: seq<Conn>, spoke: seq<bool>, late: set<Conn>)
    requires |wait| == |spoke| && Distinct(wait)
    ensures forall j :: 0 <= j < |wait| ==>
              (wait[j] in Sweep(wait, spoke, late, 0).1 <==> Dropped(wait, spoke, late, j))
  {
    SweepOriginal(wait, spoke, late, wait, 0);
  }

  /** So a connection that has spoken is spared by the pass if and only if the
      silent ones before it do not outnumber the punctual ones behind it. */
  lemma SpokenSparedIff(wait: seq<Conn>, spoke: seq<bool>, late: set<Conn>, j: nat)
    requires j < |wait| == |spoke| && Distinct(wait) && spoke[j] && wait[j] in late
    ensures wait[j] !in Sweep(wait, spoke, late, 0).1 <==>
            SilentBefore(wait, spoke, late, j) <= PunctualFrom(wait, late, j + 1)
  {
    SweepExact(wait, spoke, late);
  }

  lemma SpokenCanExpire()
    ensures 1 in Sweep([0, 1], [false, true], {0, 1}, 0).1
  {
    var spoke, late: set<Conn> := [false, true], {0, 1};
    assert Without([1], 0) == [];
    assert Sweep([], spoke, late, 0) == ([], []);
    assert Sweep([1], spoke, late, 0).1 == [1];
    assert Without([0, 1], 0) == [1];
  }

  // ------------------------------------------------------------ the listener

  /** The ring's slots, oldest first. */
  function Ring(ready: seq<Conn>, head: nat, count: nat): (q: seq<Conn>)
    requires |ready| > 0 && head < |ready| && count <= |ready|
    ensures |q| == count
    ensures forall k :: 0 <= k < count ==> q[k] == ready[Wrap(head, k, |ready|)]
  {
    seq(count, k requires 0 <= k < count => ready[Wrap(head, k, |ready|)])
  }

  function Wrap(head: nat, k: nat, depth: nat): (i: nat)
    requires head < depth && k <= depth
    ensures i < depth && (i == head + k || i == head + k - depth)
  {
    if head + k < depth then head + k else head + k - depth
  }

  lemma NextSlot(i: nat, depth: nat)
    requires i < depth
    ensures (i + 1) % depth == Wrap(i, 1, depth)
  {
    if i + 1 < depth {
      assert (i + 1) / depth == 0;
    }
  }

  lemma RingPushed(ready: seq<Conn>, head: nat, count: nat, c: Conn)
    requires head < |ready| && count < |ready|
    ensures Ring(ready[Wrap(head, count, |ready|) := c], head, count + 1) == Ring(ready, head, count) + [c]
  {
  }

  lemma RingTaken(ready: seq<Conn>, head: nat, count: nat)
    requires head < |ready| && 0 < count <= |ready|
    ensures ready[head] == Ring(ready, head, count)[0]
    ensures Ring(ready, Wrap(head, 1, |ready|), count - 1) == Ring(ready, head, count)[1..]
  {
  }

  /** One entry `c` was swap-removed. */
  predicate RemovedFrom(was: seq<Conn>, now: seq<Conn>, c: Conn) {
    exists i :: 0 <= i < |was| && was[i] == c && now == Without(was, i)
  }

  class Listener {
    const depth: nat
    const wait: array<Conn>
    const ready: array<Conn>
    var nwait: nat
    var rhead: nat
    var rtail: nat
    var rcount: nat

    ghost predicate Valid()
      reads this
    {
      && 0 < depth == wait.Length == ready.Length && wait != ready
      && nwait <= depth && rcount <= depth && rhead < depth && rtail == Wrap(rhead, rcount, depth)
    }

    ghost function Waiting(): seq<Conn>
      requires Valid()
      reads this, wait
    {
      wait[..nwait]
    }

    ghost function Queue(): (q: seq<Conn>)
      requires Valid()
      reads this, ready
    {
      Ring(ready[..], rhead, rcount)
    }

    constructor (depth: nat)
      requires depth > 0
      ensures Valid() && this.depth == depth && Waiting() == [] && Queue() == []
      ensures fresh(wait) && fresh(ready)
    {
      this.depth := depth;
      wait := new Conn[depth];
      ready := new Conn[depth];
      nwait, rhead, rtail, rcount := 0, 0, 0, 0;
    }

    /** Under the ring's lock; `full` means the connection is closed instead. */
    method ReadyPush(c: Conn) returns (full: bool)
      requires Valid()
      modifies this`rtail, this`rcount, ready
      ensures Valid()
      ensures full <==> |old(Queue())| == depth
      ensures Queue() == if full then old(Queue()) else old(Queue()) + [c]
    {
      hide Ring;
      full := true;
      if rcount < depth {
        RingPushed(ready[..], rhead, rcount, c);
        NextSlot(rtail, depth);
        ghost var was := ready[..];
        ready[rtail] := c;
        rtail := (rtail + 1) % depth;
        rcount := rcount + 1;
        full := false;
        assert ready[..] == was[old(rtail) := c];
      }
    }

    /** What a worker does under the lock; `None` when the ring is empty. */
    method TakeReady() returns (c: Option<Conn>)
      requires Valid()
      modifies this`rhead, this`rcount
      ensures Valid()
      ensures old(Queue()) == [] ==> c == None && Queue() == []
      ensures old(Queue()) != [] ==> c == Some(old(Queue())[0]) && Queue() == old(Queue())[1..]
    {
      hide Ring;
      c := None;
      if rcount > 0 {
        RingTaken(ready[..], rhead, rcount);
        NextSlot(rhead, depth);
        c := Some(ready[rhead]);
        rhead := (rhead + 1) % depth;
        rcount := rcount - 1;
      }
    }

    /** Accepts a connection into the wait set unless that is full. */
    method Enlist(c: Conn) returns (full: bool)
      requires Valid()
      modifies this`nwait, wait
      ensures Valid()
      ensures full <==> |old(Waiting())| == depth
      ensures Waiting() == if full then old(Waiting()) else old(Waiting()) + [c]
    {
      full := nwait >= depth;
      if !full {
        wait[nwait] := c;
        nwait := nwait + 1;
      }
    }

    /** The expiry pass, in place. */
    method Expire(spoke: seq<bool>, late: set<Conn>) returns (closed: seq<Conn>)
      requires Valid() && |spoke| == nwait
      modifies this`nwait, wait
      ensures Valid()
      ensures (Waiting(), closed) == Sweep(old(Waiting()), spoke, late, 0)
    {
      closed := [];
      var i := 0;
      ghost var all := Sweep(Waiting(), spoke, late, 0);
      assert [] + all.1 == all.1;
      while i < nwait
        invariant Valid() && i <= nwait <= |spoke|
        invariant var r := Sweep(Waiting(), spoke, late, i); all == (r.0, closed + r.1)
        decreases nwait - i
      {
        ghost var before := Waiting();
        ghost var done := closed;
        if !spoke[i] && wait[i] in late {
          closed := closed + [wait[i]];
          nwait := nwait - 1;
          wait[i] := wait[nwait];
          assert Waiting() == Without(before, i);
          ghost var rest := Sweep(Waiting(), spoke, late, i).1;
          assert done + ([before[i]] + rest) == closed + rest;
        } else {
          i := i + 1;
        }
      }
      assert closed + [] == closed;
    }

    /** A connection that spoke or hung up leaves the wait set. */
    method Remove(c: Conn) returns (found: bool)
      requires Valid()
      modifies this`nwait, wait
      ensures Valid() && (found <==> c in old(Waiting()))
      ensures found ==> RemovedFrom(old(Waiting()), Waiting(), c)
      ensures !found ==> Waiting() == old(Waiting())
    {
      var i := 0;
      while i < nwait
        invariant i <= nwait == old(nwait) && Waiting() == old(Waiting())
        invariant c !in Waiting()[..i]
      {
        if wait[i] == c {
          ghost var before := Waiting();
          nwait := nwait - 1;
          wait[i] := wait[nwait];
          assert before[i] == c && Waiting() == Without(before, i);
          return true;
        }
        i := i + 1;
      }
      found := false;
    }
  }
}
