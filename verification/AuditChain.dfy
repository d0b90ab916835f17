/** The MAC chain of one log file: its writer, and the verifier that walks it
    (src/fhsm_audit.c:458-527, 589-703, 787-840). */
module AuditChain {
  import opened CText
  import opened AuditLine
  import opened AuditSearch

  /** HMAC-SHA-256 under the audit key. */
  type Mac = string -> Tag

  /** The text whose tag is the chain head. */
  const INIT: string := "FHSM-AUDIT-INIT|seq=0"

  /** What became of an event that took a sequence number: its line was written
      whole, `write` kept only some bytes of it, or the MAC could not be computed. */
  datatype Outcome = Written | Torn(kept: nat) | NoMac

  datatype Attempt = Attempt(ev: Event, outcome: Outcome)

  /** Everything one opening of the log tried to record, in mutex order. */
  type Opening = seq<Attempt>

  /** The chain value when attempt `i` is made: the tag of the last line written before it. */
  function Prev(mac: Mac, o: Opening, i: nat): Tag
    requires i <= |o|
    decreases i, 0
  {
    if i == 0 then mac(INIT)
    else if o[i - 1].outcome.Written? then mac(BodyOf(mac, o, i - 1))
    else Prev(mac, o, i - 1)
  }

  function BodyOf(mac: Mac, o: Opening, i: nat): string
    requires i < |o|
    decreases i, 1
  {
    Body((i + 1) % U64, o[i].ev, Prev(mac, o, i))
  }

  function LineOf(mac: Mac, o: Opening, i: nat): string
    requires i < |o|
  {
    Line((i + 1) % U64, o[i].ev, Prev(mac, o, i), mac(BodyOf(mac, o, i)))
  }

  /** The bytes attempt `i` leaves in the file. */
  function Left(mac: Mac, o: Opening, i: nat): string
    requires i < |o|
  {
    var line := LineOf(mac, o, i);
    match o[i].outcome
    case Written => line
    case Torn(kept) => if kept <= |line| then line[..kept] else line
    case NoMac => ""
  }

  function Text(mac: Mac, o: Opening, n: nat): string
    requires n <= |o|
  {
    if n == 0 then "" else Text(mac, o, n - 1) + Left(mac, o, n - 1)
  }

  /** Later attempts change nothing about earlier ones. */
  lemma {:induction false} PastIsFixed(mac: Mac, o: Opening, o': Opening, i: nat)
    requires i <= |o| && o <= o'
    ensures Prev(mac, o, i) == Prev(mac, o', i)
    ensures i < |o| ==> BodyOf(mac, o, i) == BodyOf(mac, o', i) && LineOf(mac, o, i) == LineOf(mac, o', i)
    ensures Text(mac, o, i) == Text(mac, o', i)
    decreases i
  {
    hide Body, Line;
    if i > 0 {
      PastIsFixed(mac, o, o', i - 1);
    }
  }

  /** The line the next event would be written as. */
  function NextLine(mac: Mac, o: Opening, ev: Event): string {
    var prev := Prev(mac, o, |o|);
    var seqno := (|o| + 1) % U64;
    Line(seqno, ev, prev, mac(Body(seqno, ev, prev)))
  }

  function OutcomeOf(mac: Mac, o: Opening, ev: Event, macOk: bool, taken: nat): Outcome {
    if !macOk then NoMac
    else if taken < |NextLine(mac, o, ev)| then Torn(taken)
    else Written
  }

  /** How one more attempt moves the file and the chain value. */
  lemma AppendedLine(mac: Mac, o: Opening, a: Attempt)
    ensures var o', line := o + [a], NextLine(mac, o, a.ev);
            && Text(mac, o', |o'|) == Text(mac, o, |o|) + (
                 match a.outcome
                 case Written => line
                 case Torn(kept) => if kept <= |line| then line[..kept] else line
                 case NoMac => "")
            && Prev(mac, o', |o'|) == if a.outcome.Written?
                 then mac(Body((|o| + 1) % U64, a.ev, Prev(mac, o, |o|)))
                 else Prev(mac, o, |o|)
  {
    hide Body, Line;
    PastIsFixed(mac, o, o + [a], |o|);
    assert LineOf(mac, o + [a], |o|) == NextLine(mac, o, a.ev);
  }

  // ------------------------------------------------------------------ writer

  /** The formatting up to the `hmac` field; the truncation branch is dead. */
  method FormatBody(seqno: nat, ev: Event, prev: Tag) returns (line: string)
    requires seqno < U64 && InRange(ev)
    ensures line == Body(seqno, ev, prev) && |line| < LINE_SIZE
  {
    hide HeadSegs, TailSegs, Join;
    var params := BuildParams(ev.pairs);
    line := Join(HeadSegs(seqno, ev)) + params + Join(TailSegs(prev));
    LineFits(seqno, ev, prev, seq(32, i => 0));
    if |line| >= LINE_SIZE {
      assert false;
    }
  }

  method AddSuffix(seqno: nat, ev: Event, prev: Tag, body: string, tag: Tag) returns (line: string)
    requires seqno < U64 && InRange(ev) && body == Body(seqno, ev, prev)
    ensures line == Line(seqno, ev, prev, tag) && |line| < LINE_SIZE
  {
    hide Body, SuffixSegs, Join;
    line := body + Join(SuffixSegs(tag)) + "\n";
    LineFits(seqno, ev, prev, tag);
    if |line| >= LINE_SIZE {
      assert false;
    }
  }

  class Writer {
    const mac: Mac
    var seqno: nat
    var prev: Tag
    var file: string
    ghost var attempts: Opening

    ghost predicate Valid()
      reads this
    {
      && seqno == |attempts| % U64
      && prev == Prev(mac, attempts, |attempts|)
      && file == Text(mac, attempts, |attempts|)
    }

    constructor (mac: Mac)
      ensures Valid() && attempts == [] && this.mac == mac && file == ""
    {
      this.mac := mac;
      seqno, file, attempts := 0, "", [];
      prev := mac(INIT);
    }

    /** The mutex-protected part of `fhsm_audit_event` up to the barrier. The
        caller supplies what the library and the kernel answer: whether the MAC
        could be computed, and how many bytes `write` took. */
    method Emit(ev: Event, macOk: bool, taken: nat) returns (ok: bool)
      requires Valid() && InRange(ev)
      modifies this
      ensures Valid()
      ensures attempts == old(attempts) + [Attempt(ev, OutcomeOf(mac, old(attempts), ev, macOk, taken))]
      ensures ok <==> OutcomeOf(mac, old(attempts), ev, macOk, taken).Written?
    {
      hide Body, Line, Prev, Text;
      seqno := (seqno + 1) % U64;
      assert seqno == (|attempts| + 1) % U64;
      var body := FormatBody(seqno, ev, prev);
      var tag := mac(body);
      ghost var outcome := OutcomeOf(mac, attempts, ev, macOk, taken);
      AppendedLine(mac, attempts, Attempt(ev, outcome));
      attempts := attempts + [Attempt(ev, outcome)];
      if !macOk {
        return false;
      }
      var line := AddSuffix(seqno, ev, prev, body, tag);
      if taken < |line| {
        file := file + line[..taken];
        return false;
      }
      file := file + line;
      prev := tag;
      ok := true;
    }
  }

  // ---------------------------------------------------------------- verifier

  const READ_CAP: nat := 4095

  /** One buffer as the string functions see it, its newline removed. */
  function Seen(chunk: string): string {
    var c := CString(chunk);
    if c != "" && c[|c| - 1] == '\n' then c[..|c| - 1] else c
  }

  function SeenAll(chunks: seq<string>): (r: seq<string>)
    ensures |r| == |chunks|
  {
    seq(|chunks|, i requires 0 <= i < |chunks| => Seen(chunks[i]))
  }

  function Lines(file: string): seq<string> { SeenAll(Chunks(file, READ_CAP)) }

  /** The part of a line its tag covers: what stands before the first `hmac` field. */
  function Authenticated(line: string): string {
    var h := StrStr(line, Field("hmac"));
    if h >= 0 then line[..h] else line
  }

  function Recorded(line: string): Option<Tag> {
    var h := StrStr(line, Field("hmac"));
    if h >= 0 then UnhexAt(line, h + 8) else None
  }

  function PrevField(line: string): Option<Tag> {
    var p := StrStr(line, Field("prev_hmac"));
    if p >= 0 then UnhexAt(line, p + 13) else None
  }

  function SeqField(line: string): Option<nat> {
    var s := StrStr(line, "\"seq\":");
    if s >= 0 then Some(StrToUll(line[s + 6..])) else None
  }

  /** The three checks of one line, numbered from 1. */
  predicate LinkOk(mac: Mac, line: string, n: nat, link: Tag) {
    && Recorded(line) == Some(mac(Authenticated(line)))
    && PrevField(line) == Some(link)
    && SeqField(line) == Some(n % U64)
  }

  function Expected(mac: Mac, lines: seq<string>, i: nat): Tag
    requires i <= |lines|
  {
    if i == 0 then mac(INIT) else mac(Authenticated(lines[i - 1]))
  }

  predicate LinksTo(mac: Mac, lines: seq<string>, n: nat)
    requires n <= |lines|
  {
    forall i :: 0 <= i < n ==> LinkOk(mac, lines[i], i + 1, Expected(mac, lines, i))
  }

  predicate Accepted(mac: Mac, file: string) { LinksTo(mac, Lines(file), |Lines(file)|) }

  datatype Verdict = Intact | BrokenAt(line: nat)

  method CheckLine(mac: Mac, line: string, n: nat, link: Tag) returns (ok: bool, recorded: Option<Tag>)
    ensures ok <==> LinkOk(mac, line, n, link)
    ensures ok ==> recorded == Some(mac(Authenticated(line)))
  {
    var h := StrStr(line, Field("hmac"));
    var p := StrStr(line, Field("prev_hmac"));
    var s := StrStr(line, "\"seq\":");
    if h < 0 || p < 0 || s < 0 {
      return false, None;
    }
    if h + 8 + 64 > |line| {
      return false, None;
    }
    recorded := Unhex32(line, h + 8);
    if recorded.None? {
      return false, None;
    }
    var prevField := Unhex32(line, p + 13);
    if prevField.None? {
      return false, None;
    }
    var recomputed := mac(line[..h]);
    ok := recomputed == recorded.value && prevField.value == link && StrToUll(line[s + 6..]) == n % U64;
  }

  method Verify(mac: Mac, file: string) returns (v: Verdict)
    ensures v.Intact? <==> Accepted(mac, file)
    ensures v.BrokenAt? ==>
              && 1 <= v.line <= |Lines(file)|
              && LinksTo(mac, Lines(file), v.line - 1)
              && !LinkOk(mac, Lines(file)[v.line - 1], v.line, Expected(mac, Lines(file), v.line - 1))
  {
    hide LinkOk, Authenticated, Lines, ChunkLen, LinksTo, Expected, Seen;
    LinksNone(mac, Lines(file));
    var link := mac(INIT);
    var rest, n := file, 0;
    ghost var lines := Lines(file);
    while rest != ""
      invariant n <= |lines| && Lines(rest) == lines[n..]
      invariant LinksTo(mac, lines, n)
      invariant link == Expected(mac, lines, n)
      decreases |rest|
    {
      var got := ChunkLen(rest, READ_CAP);
      var line := Seen(rest[..got]);
      LinesStep(rest);
      assert line == lines[n..][0] == lines[n];
      assert lines[n..][1..] == lines[n + 1..];
      rest, n := rest[got..], n + 1;
      var ok, recorded := CheckLine(mac, line, n, link);
      if !ok {
        LinksFail(mac, lines, n - 1);
        return BrokenAt(n);
      }
      LinksOneMore(mac, lines, n - 1);
      link := recorded.value;
    }
    NoLines();
    v := Intact;
  }

  lemma LinksNone(mac: Mac, lines: seq<string>)
    ensures LinksTo(mac, lines, 0) && Expected(mac, lines, 0) == mac(INIT)
  {
  }

  lemma LinksOneMore(mac: Mac, lines: seq<string>, n: nat)
    requires n < |lines| && LinksTo(mac, lines, n) && LinkOk(mac, lines[n], n + 1, Expected(mac, lines, n))
    ensures LinksTo(mac, lines, n + 1) && Expected(mac, lines, n + 1) == mac(Authenticated(lines[n]))
  {
    hide LinkOk, Authenticated;
    assert n + 1 != 0;
    forall i | 0 <= i < n + 1
      ensures LinkOk(mac, lines[i], i + 1, Expected(mac, lines, i))
    {
      assert i < n || i == n;
    }
  }

  lemma LinksFail(mac: Mac, lines: seq<string>, n: nat)
    requires n < |lines| && !LinkOk(mac, lines[n], n + 1, Expected(mac, lines, n))
    ensures !LinksTo(mac, lines, |lines|)
  {
    hide LinkOk;
  }

  lemma LinesStep(file: string)
    requires file != ""
    ensures var got := ChunkLen(file, READ_CAP);
            Lines(file) == [Seen(file[..got])] + Lines(file[got..])
  {
    hide ChunkLen, Seen;
  }

  lemma NoLines()
    ensures Lines("") == []
  {
  }
}
