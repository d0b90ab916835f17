/** The refusal budget (service/fhsm_service.c:590-801): an escalating, capped
    and decaying delay per identity, whose counts survive a restart. */
module Budget {
  import opened CText

  const MAX: nat := 256
  const FREE: nat := 4
  const DECAY_S: int := 600
  const CAP_S: int := 60
  const SUBJECT_MAX: nat := 128

  type Subject = string

  datatype Entry = Entry(subject: Subject, count: nat, last: int, announced: bool)

  type Slots = seq<Option<Entry>>

  // ------------------------------------------------------------- arithmetic

  function Pow2(k: nat): (r: nat)
    ensures r >= 1
  {
    if k == 0 then 1 else 2 * Pow2(k - 1)
  }

  function Delay(n: nat): (d: int)
    ensures 0 <= d <= CAP_S
    ensures n <= FREE ==> d == 0
  {
    if n <= FREE then 0
    else
      var k := n - FREE - 1;
      if k >= 20 then CAP_S
      else if Pow2(k) > CAP_S then CAP_S else Pow2(k)
  }

  lemma {:induction false} Pow2Grows(i: nat, j: nat)
    requires i <= j
    ensures Pow2(i) <= Pow2(j)
    decreases j - i
  {
    if i < j {
      Pow2Grows(i, j - 1);
    }
  }

  /** The delay never shrinks with the count, and is at its cap from 11 on. */
  lemma DelayGrows(m: nat, n: nat)
    requires m <= n
    ensures Delay(m) <= Delay(n)
    ensures n >= 11 ==> Delay(n) == CAP_S
  {
    if m > FREE {
      Pow2Grows(m - FREE - 1, n - FREE - 1);
    }
    if n >= 11 {
      assert Pow2(6) == 64;
      Pow2Grows(6, n - FREE - 1);
    }
  }

  /** The escalation in seconds: nothing for the first four, then doubling from one
      second, and a minute from the eleventh on. */
  const LADDER: seq<int> := [0, 0, 0, 0, 0, 1, 2, 4, 8, 16, 32]

  lemma DelayLadder(n: nat)
    ensures Delay(n) == if n < 11 then LADDER[n] else 60
    ensures Delay(5) == 1 && (5 <= n < 10 ==> Delay(n + 1) == 2 * Delay(n))
  {
    assert Pow2(0) == 1 && Pow2(1) == 2 && Pow2(2) == 4 && Pow2(3) == 8 && Pow2(4) == 16 && Pow2(5) == 32;
    if n >= 11 {
      DelayGrows(11, n);
    }
  }

  function Quiet(e: Entry, now: int): int { if now < e.last then 0 else now - e.last }

  /** One refusal is forgiven for every full ten quiet minutes. */
  function Decayed(e: Entry, now: int): (n: nat)
    ensures n <= e.count
    ensures n == 0 || n == e.count - Quiet(e, now) / DECAY_S
    ensures n == 0 ==> e.count <= Quiet(e, now) / DECAY_S
  {
    if e.count == 0 then 0
    else
      var forgiven := Quiet(e, now) / DECAY_S;
      if forgiven >= e.count then 0 else e.count - forgiven
  }

  /** What decay means: the count stands for ten minutes after the last refusal,
      then falls by one for every ten minutes more, and never rises again by itself. */
  lemma DecayLaw(e: Entry, now: int, later: int)
    requires now <= later
    ensures now < e.last + 600 ==> Decayed(e, now) == e.count
    ensures now >= e.last ==> Decayed(e, now + 600) == if Decayed(e, now) > 0 then Decayed(e, now) - 1 else 0
    ensures Decayed(e, later) <= Decayed(e, now)
  {
    if now >= e.last {
      assert (now + DECAY_S - e.last) / DECAY_S == (now - e.last) / DECAY_S + 1;
    }
  }

  /** The seconds an entry still owes. */
  function OwedBy(e: Entry, now: int): (w: int)
    ensures 0 <= w <= CAP_S
  {
    var need := Delay(Decayed(e, now));
    if need > Quiet(e, now) then need - Quiet(e, now) else 0
  }

  // ------------------------------------------------------------------ table

  predicate Holds(slot: Option<Entry>, s: Subject) { slot.Some? && slot.value.subject == s }

  predicate Reusable(slot: Option<Entry>, now: int) { slot.None? || Decayed(slot.value, now) == 0 }

  function Find(slots: Slots, s: Subject, from: nat := 0): (i: int)
    ensures i == -1 || from <= i < |slots|
    ensures i == -1 ==> forall j :: from <= j < |slots| ==> !Holds(slots[j], s)
    ensures i >= 0 ==> Holds(slots[i], s) && forall j :: from <= j < i ==> !Holds(slots[j], s)
    decreases |slots| - from
  {
    if from >= |slots| then -1 else if Holds(slots[from], s) then from else Find(slots, s, from + 1)
  }

  function Spare(slots: Slots, now: int, from: nat := 0): (i: int)
    ensures i == -1 || from <= i < |slots|
    ensures i == -1 ==> forall j :: from <= j < |slots| ==> !Reusable(slots[j], now)
    ensures i >= 0 ==> Reusable(slots[i], now) && forall j :: from <= j < i ==> !Reusable(slots[j], now)
    decreases |slots| - from
  {
    if from >= |slots| then -1 else if Reusable(slots[from], now) then from else Spare(slots, now, from + 1)
  }

  predicate Unique(slots: Slots) {
    forall i, j :: 0 <= i < |slots| && 0 <= j < |slots| && slots[i].Some? && slots[j].Some? ==>
      slots[i].value.subject == slots[j].value.subject ==> i == j
  }

  function EntryOf(slots: Slots, s: Subject): Option<Entry> {
    var i := Find(slots, s);
    if i >= 0 then slots[i] else None
  }

  function CountOf(slots: Slots, s: Subject): nat {
    var e := EntryOf(slots, s);
    if e.Some? then e.value.count else 0
  }

  /** What identity `s` still has to wait. */
  function Owed(slots: Slots, s: Subject, now: int): int {
    var e := EntryOf(slots, s);
    if e.Some? then OwedBy(e.value, now) else 0
  }

  /** The entry after one more refusal. */
  function Bumped(e: Entry, now: int): Entry {
    var n := Decayed(e, now) + 1;
    e.(count := n, last := now, announced := n > FREE)
  }

  function Fresh(s: Subject, now: int): Entry { Entry(s, 0, now, false) }

  /** The slot a refusal of `s` is charged to, or -1 when the table has none. */
  function Slot(slots: Slots, s: Subject, now: int): (i: int)
    ensures i == -1 || 0 <= i < |slots|
  {
    if Find(slots, s) >= 0 then Find(slots, s) else Spare(slots, now)
  }

  function Charged(slots: Slots, s: Subject, now: int): (r: Slots)
    ensures |r| == |slots|
  {
    var i := Slot(slots, s, now);
    if i < 0 then slots
    else if Find(slots, s) >= 0 then slots[i := Some(Bumped(slots[i].value, now))]
    else slots[i := Some(Bumped(Fresh(s, now), now))]
  }

  lemma BumpedFresh(s: Subject, now: int)
    ensures Bumped(Fresh(s, now), now) == Entry(s, 1, now, false)
  {
  }

  /** What a charge does to the one charged and to everybody else: an entry of
      another identity survives untouched, unless it had decayed to nothing. */
  lemma ChargeEffect(slots: Slots, s: Subject, now: int, other: Subject)
    requires Unique(slots)
    ensures Unique(Charged(slots, s, now))
    ensures Slot(slots, s, now) >= 0 ==>
              EntryOf(Charged(slots, s, now), s) ==
              Some(if EntryOf(slots, s).Some? then Bumped(EntryOf(slots, s).value, now) else Entry(s, 1, now, false))
    ensures other != s ==>
              || EntryOf(Charged(slots, s, now), other) == EntryOf(slots, other)
              || (EntryOf(Charged(slots, s, now), other).None? && Decayed(EntryOf(slots, other).value, now) == 0)
  {
    var i := Slot(slots, s, now);
    if i >= 0 {
      var r := Charged(slots, s, now);
      BumpedFresh(s, now);
      assert Holds(r[i], s);
      assert forall j :: 0 <= j < |slots| && j != i ==> r[j] == slots[j];
      var k := Find(slots, other);
      if other != s && k >= 0 && k != i {
        assert Holds(r[k], other);
      }
    }
  }

  /** Every slot belongs to another identity with something left to forgive. */
  predicate AllTaken(slots: Slots, s: Subject, now: int) {
    forall j :: 0 <= j < |slots| ==>
      slots[j].Some? && slots[j].value.subject != s && Decayed(slots[j].value, now) > 0
  }

  /** Exactly then a refusal is not charged; it changes nothing and costs nothing. */
  lemma UnchargedExactlyWhenFull(slots: Slots, s: Subject, now: int)
    ensures Slot(slots, s, now) < 0 <==> AllTaken(slots, s, now)
    ensures AllTaken(slots, s, now) ==> Charged(slots, s, now) == slots && Owed(slots, s, now) == 0
  {
    hide Decayed;
    if Slot(slots, s, now) < 0 {
      forall j | 0 <= j < |slots|
        ensures slots[j].Some? && slots[j].value.subject != s && Decayed(slots[j].value, now) > 0
      {
        assert !Holds(slots[j], s) && !Reusable(slots[j], now);
      }
    }
    if AllTaken(slots, s, now) {
      assert forall j :: 0 <= j < |slots| ==> !Holds(slots[j], s) && !Reusable(slots[j], now);
    }
  }

  // ------------------------------------------------------------------- file

  /** What the file records: a count and a subject for every entry that has one. */
  datatype Record = Record(count: nat, subject: Subject)

  function Records(slots: Slots): seq<Record> {
    if slots == [] then []
    else (if slots[0].Some? && slots[0].value.count > 0
          then [Record(slots[0].value.count, slots[0].value.subject)] else []) + Records(slots[1..])
  }

  const COMMENT_A: string := "# fhsm-service refusal "
  const COMMENT_B: string := "budget v1 -- count<TAB>subject"
  const HEADER: string := COMMENT_A + COMMENT_B + "\n"

  function RecordLine(r: Record): string { Dec(r.count) + "\t" + r.subject + "\n" }

  function RecordLines(rs: seq<Record>): string {
    if rs == [] then "" else RecordLine(rs[0]) + RecordLines(rs[1..])
  }

  function FileText(rs: seq<Record>): string { HEADER + RecordLines(rs) }

  lemma NoRecords(slots: Slots)
    requires |slots| == 0
    ensures RecordLines(Records(slots)) == ""
  {
  }

  /** One turn of the saving loop. */
  lemma SaveStep(slots: Slots, i: nat, text: string)
    requires i < |slots|
    ensures var more := if slots[i].Some? && slots[i].value.count > 0
                        then RecordLine(Record(slots[i].value.count, slots[i].value.subject)) else "";
            text + RecordLines(Records(slots[i..])) == text + more + RecordLines(Records(slots[i + 1..]))
  {
    hide RecordLine;
    var rest := Records(slots[i + 1..]);
    assert slots[i..][1..] == slots[i + 1..];
    if slots[i].Some? && slots[i].value.count > 0 {
      var r := Record(slots[i].value.count, slots[i].value.subject);
      assert ([r] + rest)[1..] == rest;
      assert RecordLines(Records(slots[i..])) == RecordLine(r) + RecordLines(rest);
    } else {
      assert Records(slots[i..]) == rest;
      assert text + "" == text;
    }
  }

  /** The saving loop: what is printed for a table. */
  method SavedText(slots: Slots) returns (text: string)
    ensures text == FileText(Records(slots))
  {
    hide Records, RecordLines, RecordLine;
    text := HEADER;
    var i := 0;
    assert slots[0..] == slots;
    while i < |slots|
      invariant 0 <= i <= |slots|
      invariant text + RecordLines(Records(slots[i..])) == FileText(Records(slots))
    {
      SaveStep(slots, i, text);
      if slots[i].Some? && slots[i].value.count > 0 {
        text := text + RecordLine(Record(slots[i].value.count, slots[i].value.subject));
      }
      i := i + 1;
    }
    NoRecords(slots[i..]);
    assert text + RecordLines(Records(slots[i..])) == text;
  }

  class Table {
    var slots: Slots
    var file: Option<string>

    ghost predicate Valid()
      reads this
    {
      |slots| == MAX && Unique(slots)
    }

    constructor ()
      ensures Valid() && file.None? && forall i :: 0 <= i < MAX ==> slots[i].None?
    {
      slots := seq(MAX, i => None);
      file := None;
    }

    method RetryAfter(subject: Subject, now: int) returns (wait: int)
      requires Valid()
      ensures wait == Owed(slots, subject, now)
    {
      wait := 0;
      var i := 0;
      while i < MAX
        invariant 0 <= i <= MAX && wait == 0
        invariant forall j :: 0 <= j < i ==> !Holds(slots[j], subject)
      {
        if slots[i].Some? && slots[i].value.subject == subject {
          var e := slots[i].value;
          var need := Delay(Decayed(e, now));
          var since := now - e.last;
          if since < 0 {
            since := 0;
          }
          if need > since {
            wait := need - since;
          }
          return;
        }
        i := i + 1;
      }
    }

    /** `budget_charge`. `saved` is whether the temp-file-and-rename succeeds. */
    method Charge(subject: Subject, now: int, saved: bool) returns (reached: nat, announce: bool)
      requires Valid()
      modifies this
      ensures Valid() && slots == Charged(old(slots), subject, now)
      ensures reached == (if Slot(old(slots), subject, now) < 0 then 0 else CountOf(slots, subject))
      ensures announce <==> reached > FREE && (var e := EntryOf(old(slots), subject); e.None? || !e.value.announced)
      ensures file == if reached > FREE && saved then Some(FileText(Records(slots))) else old(file)
    {
      ChargeEffect(slots, subject, now, subject);
      announce := false;
      var slot, spare := -1, -1;
      var i := 0;
      while i < MAX && slot < 0
        invariant 0 <= i <= MAX
        invariant slot == -1 ==> forall j :: 0 <= j < i ==> !Holds(slots[j], subject)
        invariant slot != -1 ==> 0 <= slot < MAX && slot == Find(slots, subject)
        invariant slot == -1 && spare == -1 ==> forall j :: 0 <= j < i ==> !Reusable(slots[j], now)
        invariant spare != -1 ==> 0 <= spare < MAX && Reusable(slots[spare], now)
        invariant spare != -1 ==> forall j :: 0 <= j < spare ==> !Reusable(slots[j], now)
        decreases MAX - i, slot == -1
      {
        if slots[i].None? {
          if spare < 0 {
            spare := i;
          }
          i := i + 1;
        } else if slots[i].value.subject == subject {
          slot := i;
        } else {
          if Decayed(slots[i].value, now) == 0 && spare < 0 {
            spare := i;
          }
          i := i + 1;
        }
      }
      if slot < 0 {
        if spare < 0 {
          return 0, false;
        }
        slot := spare;
        slots := slots[slot := Some(Entry(subject, 0, now, false))];
      }
      var e := slots[slot].value;
      var before := Decayed(e, now);
      e := e.(count := before + 1, last := now);
      if e.count > FREE {
        if !e.announced {
          e := e.(announced := true);
          announce := true;
        }
      } else {
        e := e.(announced := false);
      }
      slots := slots[slot := Some(e)];
      if e.count > FREE {
        Save(saved);
      }
      reached := e.count;
    }

    method Save(saved: bool)
      modifies this`file
      ensures file == if saved then Some(FileText(Records(slots))) else old(file)
    {
      var text := SavedText(slots);
      if saved {
        file := Some(text);
      }
    }

    /** `budget_load` into an empty table: the lines of the file, up to its end
        or a full table. The decay clock starts now. */
    method Load(now: int)
      requires Valid() && forall i :: 0 <= i < MAX ==> slots[i].None?
      modifies this`slots
      ensures slots == if file.None? then old(slots) else Placed(Parsed(Chunks(file.value, LINE_CAP)), now)
    {
      if file.Some? {
        slots := LoadText(file.value, now);
      }
    }
  }

  /** The loading loop. */
  method LoadText(text: string, now: int) returns (slots: Slots)
    ensures slots == Placed(Parsed(Chunks(text, LINE_CAP)), now)
  {
    hide Parsed, Chunks, ChunkLen, ParseLine, Placed;
    slots := seq(MAX, i => None);
    var rest, slot := text, 0;
    ghost var all := Parsed(Chunks(text, LINE_CAP));
    ghost var taken: seq<Record> := [];
    PlacedNone(slots, now);
    while rest != "" && slot < MAX
      invariant slot <= MAX && |taken| == slot && all == taken + Parsed(Chunks(rest, LINE_CAP))
      invariant slots == Placed(taken, now)
      decreases |rest|
    {
      var n := ChunkLen(rest, LINE_CAP);
      var r := ParseLine(rest[..n]);
      ParsedStep(rest);
      rest := rest[n..];
      if r.Some? {
        ghost var tail := Parsed(Chunks(rest, LINE_CAP));
        assert taken + ([r.value] + tail) == (taken + [r.value]) + tail;
        PlacedOneMore(taken, r.value, now);
        slots := slots[slot := Some(Entry(r.value.subject, r.value.count, now, false))];
        taken := taken + [r.value];
        slot := slot + 1;
      }
    }
    NothingParsed();
    PlacedFull(taken, all, now);
  }

  lemma PlacedNone(slots: Slots, now: int)
    requires |slots| == MAX && forall i :: 0 <= i < MAX ==> slots[i].None?
    ensures slots == Placed([], now)
  {
  }

  lemma PlacedOneMore(rs: seq<Record>, r: Record, now: int)
    requires |rs| < MAX
    ensures Placed(rs + [r], now) == Placed(rs, now)[|rs| := Some(Entry(r.subject, r.count, now, false))]
  {
  }

  lemma PlacedFull(rs: seq<Record>, all: seq<Record>, now: int)
    requires rs <= all && (|rs| == MAX || rs == all)
    ensures Placed(rs, now) == Placed(all, now)
  {
  }

  lemma NothingParsed()
    ensures Parsed(Chunks("", LINE_CAP)) == []
  {
  }

  const LINE_CAP: nat := 599

  function TabAt(s: string, from: nat := 0): (i: int)
    ensures i == -1 || from <= i < |s|
    ensures i == -1 ==> forall j :: from <= j < |s| ==> s[j] != '\t'
    ensures i >= 0 ==> s[i] == '\t' && forall j :: from <= j < i ==> s[j] != '\t'
    decreases |s| - from
  {
    if from >= |s| then -1 else if s[from] == '\t' then from else TabAt(s, from + 1)
  }

  function TrimEol(s: string): string {
    if s != "" && (s[|s| - 1] == '\n' || s[|s| - 1] == '\r') then TrimEol(s[..|s| - 1]) else s
  }

  const U32: nat := 0x1_0000_0000

  /** One line of the file, or nothing when the loader skips it. */
  function ParseLine(chunk: string): Option<Record> {
    var line := CString(chunk);
    var tab := TabAt(line);
    if line == "" || line[0] == '#' || line[0] == '\n' || tab < 0 then None
    else
      var subject := TrimEol(line[tab + 1..]);
      var count := StrToUll(line[..tab]) % U32;
      if subject == "" || |subject| >= SUBJECT_MAX || count == 0 then None
      else Some(Record(count, subject))
  }

  /** The end of a line: any carriage returns and newlines. */
  predicate Eols(s: string) { forall i :: 0 <= i < |s| ==> s[i] == '\r' || s[i] == '\n' }

  /** What a line of the file must be to give that record. */
  ghost predicate Gives(line: string, number: string, eols: string, r: Record) {
    && line == number + "\t" + (r.subject + eols) && '\t' !in number
    && (number != "" ==> number[0] != '#' && number[0] != '\n') && Eols(eols)
    && 1 <= |r.subject| <= 127 && r.subject[|r.subject| - 1] !in "\r\n"
    && r.count == StrToUll(number) % 0x1_0000_0000 && r.count > 0
  }

  lemma {:induction false} TrimSplits(s: string) returns (eols: string)
    ensures Eols(eols) && s == TrimEol(s) + eols
    ensures TrimEol(s) == "" || TrimEol(s)[|TrimEol(s)| - 1] !in "\r\n"
    decreases |s|
  {
    if s != "" && (s[|s| - 1] == '\n' || s[|s| - 1] == '\r') {
      var rest := TrimSplits(s[..|s| - 1]);
      eols := rest + [s[|s| - 1]];
      assert s == s[..|s| - 1] + [s[|s| - 1]];
    } else {
      eols := "";
    }
  }

  lemma {:induction false} TrimsEols(s: string, eols: string)
    requires Eols(eols) && s != "" && s[|s| - 1] !in "\r\n"
    ensures TrimEol(s + eols) == s
    decreases |eols|
  {
    if eols == "" {
      assert s + eols == s;
    } else {
      var n := |eols| - 1;
      assert (s + eols)[..|s| + n] == s + eols[..n];
      TrimsEols(s, eols[..n]);
    }
  }

  /** The loader takes a record from a line if and only if the line gives it. */
  lemma LineGivesIff(chunk: string, r: Record)
    ensures ParseLine(chunk) == Some(r) <==> exists number, eols :: Gives(CString(chunk), number, eols, r)
  {
    hide Gives, ParseLine;
    if ParseLine(chunk) == Some(r) {
      var number, eols := TakenGives(chunk, r);
    }
    forall number, eols | Gives(CString(chunk), number, eols, r)
      ensures ParseLine(chunk) == Some(r)
    {
      GivesTaken(chunk, number, eols, r);
    }
  }

  lemma TakenGives(chunk: string, r: Record) returns (number: string, eols: string)
    requires ParseLine(chunk) == Some(r)
    ensures Gives(CString(chunk), number, eols, r)
  {
    hide CString, StrToUll, TrimEol;
    var line := CString(chunk);
    var tab := TabAt(line);
    number := line[..tab];
    eols := TrimSplits(line[tab + 1..]);
    assert line == number + "\t" + line[tab + 1..];
  }

  lemma GivesTaken(chunk: string, number: string, eols: string, r: Record)
    requires Gives(CString(chunk), number, eols, r)
    ensures ParseLine(chunk) == Some(r)
  {
    hide CString, StrToUll, TrimEol;
    var line := CString(chunk);
    TabAfter(number, r.subject + eols);
    TrimsEols(r.subject, eols);
    assert line[0] == (number + "\t")[0];
  }

  lemma TabAfter(a: string, b: string)
    requires '\t' !in a
    ensures var s := a + "\t" + b; TabAt(s) == |a| && s[..|a|] == a && s[|a| + 1..] == b
  {
    var s := a + "\t" + b;
    assert s[|a|] == '\t';
    assert forall j :: 0 <= j < |a| ==> s[j] == a[j];
  }

  function Parsed(chunks: seq<string>): seq<Record> {
    if chunks == [] then []
    else (var r := ParseLine(chunks[0]); if r.Some? then [r.value] else []) + Parsed(chunks[1..])
  }

  lemma ParsedStep(rest: string)
    requires rest != ""
    ensures var n := ChunkLen(rest, LINE_CAP);
            Parsed(Chunks(rest, LINE_CAP)) ==
            (var r := ParseLine(rest[..n]); if r.Some? then [r.value] else []) + Parsed(Chunks(rest[n..], LINE_CAP))
  {
    hide ParseLine, ChunkLen;
  }

  /** The table a list of records is loaded into. */
  function Placed(rs: seq<Record>, now: int): (r: Slots)
    ensures |r| == MAX
  {
    seq(MAX, i => if 0 <= i < |rs| then Some(Entry(rs[i].subject, rs[i].count, now, false)) else None)
  }

  // ------------------------------------------------------- reading it back

  /** What the request reader lets through as a subject: printable bytes, 1 to 127 of them. */
  predicate GoodSubject(s: Subject) {
    1 <= |s| < SUBJECT_MAX && forall c :: c in s ==> c as int >= 0x20
  }

  predicate GoodRecord(r: Record) { 0 < r.count < U32 && GoodSubject(r.subject) }

  lemma DecChars(n: nat)
    ensures forall c :: c in Dec(n) ==> c != '\t' && c != '\n' && c != NUL && c != '#'
  {
  }

  lemma TrimGood(s: Subject)
    requires GoodSubject(s)
    ensures TrimEol(s + "\n") == s
  {
    assert (s + "\n")[..|s|] == s;
    assert s[|s| - 1] in s;
  }

  lemma RecordLineParts(r: Record)
    requires GoodRecord(r)
    ensures var line, d := RecordLine(r), Dec(r.count);
            && CString(line) == line && TabAt(line) == |d|
            && line[..|d|] == d && line[|d| + 1..] == r.subject + "\n"
            && line[0] != '#' && line[0] != '\n'
  {
    hide Dec, CString;
    var line, d := RecordLine(r), Dec(r.count);
    DecChars(r.count);
    assert NUL !in line;
    assert line[|d|] == '\t' && forall j :: 0 <= j < |d| ==> line[j] == d[j] && d[j] in d;
    assert line[0] == d[0] && d[0] in d;
  }

  lemma RecordLineReads(r: Record)
    requires GoodRecord(r)
    ensures ParseLine(RecordLine(r)) == Some(r)
  {
    hide Dec, StrToUll, TrimEol, CString, TabAt, RecordLine;
    RecordLineParts(r);
    TrimGood(r.subject);
    var d := Dec(r.count);
    assert d + "" == d;
    StrToUllOfDec(r.count, "");
    assert r.count % U32 == r.count;
  }

  lemma RecordLineShape(r: Record)
    requires GoodRecord(r)
    ensures var l := RecordLine(r);
            2 <= |l| <= LINE_CAP && l[|l| - 1] == '\n' && '\n' !in l[..|l| - 1]
  {
    hide Dec;
    assert Pow10(5) == 100_000;
    assert Pow10(10) == 10_000_000_000;
    DecWidth(r.count, 10);
    DecChars(r.count);
    var l := RecordLine(r);
    assert l[..|l| - 1] == Dec(r.count) + "\t" + r.subject;
  }

  predicate GoodRecords(rs: seq<Record>) { forall i :: 0 <= i < |rs| ==> GoodRecord(rs[i]) }

  lemma {:induction false} RecordLinesRead(rs: seq<Record>)
    requires GoodRecords(rs)
    ensures Parsed(Chunks(RecordLines(rs), LINE_CAP)) == rs
  {
    hide RecordLine, ParseLine, ChunkLen;
    if rs != [] {
      RecordLineShape(rs[0]);
      RecordLineReads(rs[0]);
      RecordLinesRead(rs[1..]);
      var l, rest := RecordLine(rs[0]), RecordLines(rs[1..]);
      ChunksOfLine(l, rest, LINE_CAP);
      var chunks := [l] + Chunks(rest, LINE_CAP);
      assert chunks[1..] == Chunks(rest, LINE_CAP);
      assert rs == [rs[0]] + rs[1..];
    }
  }

  /** Saving and loading are inverse: the file reads back as what was recorded. */
  lemma FileReadsBack(rs: seq<Record>)
    requires GoodRecords(rs)
    ensures Parsed(Chunks(FileText(rs), LINE_CAP)) == rs
  {
    hide RecordLine, ParseLine, ChunkLen;
    RecordLinesRead(rs);
    HeaderIsSkipped();
    ChunksOfLine(HEADER, RecordLines(rs), LINE_CAP);
    var rest := Chunks(RecordLines(rs), LINE_CAP);
    assert ([HEADER] + rest)[1..] == rest;
  }

  lemma HeaderIsSkipped()
    ensures ParseLine(HEADER).None?
    ensures 1 <= |HEADER| <= LINE_CAP && HEADER[|HEADER| - 1] == '\n' && '\n' !in HEADER[..|HEADER| - 1]
  {
    assert '\n' !in COMMENT_A;
    assert '\n' !in COMMENT_B;
    assert COMMENT_A[0] == '#';
    CommentIsSkipped(COMMENT_A, COMMENT_B, HEADER);
  }

  lemma CommentIsSkipped(a: string, b: string, header: string)
    requires header == a + b + "\n" && a != "" && a[0] == '#' && '\n' !in a && '\n' !in b
    ensures ParseLine(header).None?
    ensures header[|header| - 1] == '\n' && '\n' !in header[..|header| - 1]
  {
    assert header[..|header| - 1] == a + b;
    assert CString(header) != "" ==> CString(header)[0] == header[0];
  }
}
