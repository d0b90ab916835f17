/** One line of the audit log: hexadecimal tags, the safe-ASCII filter, the
    parameter buffer and the line itself (src/fhsm_audit.c:139-172, 371-386, 611-686). */
module AuditLine {
  import opened CText

  type Tag = t: seq<Byte> | |t| == 32 witness seq(32, i => 0)

  // --------------------------------------------------------------------- hex

  const HEX_DIGITS: string := "0123456789abcdef"

  function HexChar(v: nat): (c: char)
    requires v < 16
  {
    HEX_DIGITS[v]
  }

  /** The value of one hexadecimal digit of either case, or -1. */
  function HexVal(c: char): (v: int)
    ensures -1 <= v < 16
  {
    if '0' <= c <= '9' then c as int - '0' as int
    else if 'a' <= c <= 'f' then c as int - 'a' as int + 10
    else if 'A' <= c <= 'F' then c as int - 'A' as int + 10
    else -1
  }

  lemma HexCharVal(v: nat)
    requires v < 16
    ensures HexVal(HexChar(v)) == v
  {
  }

  function Hex(t: Tag): (s: string)
    ensures |s| == 64
  {
    seq(64, j requires 0 <= j < 64 => HexChar(Nibble(t, j)))
  }

  function Nibble(t: Tag, j: nat): (v: nat)
    requires j < 64
    ensures v < 16
  {
    if j % 2 == 0 then t[j / 2] / 16 else t[j / 2] % 16
  }

  lemma HexDigitAt(t: Tag, j: nat)
    requires j < 64
    ensures HexVal(Hex(t)[j]) == Nibble(t, j)
  {
    HexCharVal(Nibble(t, j));
  }

  method Hex32(tag: Tag, out: array<char>)
    requires out.Length >= 64
    modifies out
    ensures out[..64] == Hex(tag)
    ensures out[64..] == old(out[64..])
  {
    for i := 0 to 32
      invariant forall j :: 0 <= j < 2 * i ==> out[j] == Hex(tag)[j]
      invariant out[64..] == old(out[64..])
    {
      out[2 * i] := HEX_DIGITS[tag[i] / 16];
      out[2 * i + 1] := HEX_DIGITS[tag[i] % 16];
    }
  }

  /** Sixty-four hexadecimal digits stand at `at`. A read past the end of the
      text meets the terminating NUL, which is not a digit. */
  predicate HexAt(s: string, at: nat) {
    at + 64 <= |s| && forall j :: at <= j < at + 64 ==> HexVal(s[j]) >= 0
  }

  function UnhexAt(s: string, at: nat): (r: Option<Tag>)
    ensures r.Some? <==> HexAt(s, at)
    ensures r.Some? ==> forall i :: 0 <= i < 32 ==>
              r.value[i] == 16 * HexVal(s[at + 2 * i]) + HexVal(s[at + 2 * i + 1])
  {
    if HexAt(s, at)
    then Some(seq(32, i requires 0 <= i < 32 => 16 * HexVal(s[at + 2 * i]) + HexVal(s[at + 2 * i + 1])))
    else None
  }

  method Unhex32(s: string, at: nat) returns (r: Option<Tag>)
    ensures r == UnhexAt(s, at)
  {
    var out: seq<Byte> := [];
    for i := 0 to 32
      invariant |out| == i
      invariant at + 2 * i <= |s| || i == 0
      invariant forall j :: at <= j < at + 2 * i ==> HexVal(s[j]) >= 0
      invariant forall j :: 0 <= j < i ==> out[j] == 16 * HexVal(s[at + 2 * j]) + HexVal(s[at + 2 * j + 1])
    {
      var v := 0;
      for k := 0 to 2
        invariant 0 <= v < 256
        invariant k == 0 ==> v == 0
        invariant k >= 1 ==> at + 2 * i < |s| && 0 <= HexVal(s[at + 2 * i]) && v < 16 * (if k == 1 then 1 else 16)
        invariant k == 1 ==> v == HexVal(s[at + 2 * i])
        invariant k == 2 ==> at + 2 * i + 1 < |s| && 0 <= HexVal(s[at + 2 * i + 1])
        invariant k == 2 ==> v == 16 * HexVal(s[at + 2 * i]) + HexVal(s[at + 2 * i + 1])
      {
        var c := if at + 2 * i + k < |s| then s[at + 2 * i + k] else NUL;
        var d := HexVal(c);
        if d < 0 {
          return None;
        }
        v := v * 16 + d;
      }
      out := out + [v];
    }
    r := Some(out);
    assert HexAt(s, at);
    assert out == UnhexAt(s, at).value;
  }

  /** `unhex32` undoes `hex32`, wherever the digits stand. */
  lemma HexRoundTrip(t: Tag, s: string, at: nat)
    requires at + 64 <= |s| && s[at..at + 64] == Hex(t)
    ensures UnhexAt(s, at) == Some(t)
  {
    hide Hex, HexVal;
    forall j | at <= j < at + 64
      ensures HexVal(s[j]) == Nibble(t, j - at)
    {
      assert s[j] == s[at..at + 64][j - at];
      HexDigitAt(t, j - at);
    }
    assert HexAt(s, at);
    var r := UnhexAt(s, at).value;
    forall i | 0 <= i < 32
      ensures r[i] == t[i]
    {
      assert HexVal(s[at + 2 * i]) == Nibble(t, 2 * i) && HexVal(s[at + 2 * i + 1]) == Nibble(t, 2 * i + 1);
    }
    assert r == t;
  }

  lemma UnhexCut(s: string, kept: nat, at: nat)
    requires at + 64 <= kept <= |s|
    ensures UnhexAt(s[..kept], at) == UnhexAt(s, at)
  {
    var piece := s[..kept];
    assert forall j :: at <= j < at + 64 ==> piece[j] == s[j];
    if HexAt(s, at) {
      assert UnhexAt(piece, at).value == UnhexAt(s, at).value;
    }
  }

  // ------------------------------------------------------------------ filter

  predicate SafeChar(c: char) { 0x20 <= c as int <= 0x7e && c != '"' && c != '\\' }

  predicate Safe(s: string) { forall i :: 0 <= i < |s| ==> SafeChar(s[i]) }

  lemma HexSafe(t: Tag)
    ensures Safe(Hex(t))
  {
    forall j | 0 <= j < 64
      ensures SafeChar(Hex(t)[j])
    {
      HexDigitAt(t, j);
    }
  }

  /** `safe_ascii`; a null pointer is not safe. */
  method SafeAscii(s: Option<string>) returns (ok: bool)
    ensures ok <==> s.Some? && Safe(s.value)
  {
    if s.None? {
      return false;
    }
    for i := 0 to |s.value|
      invariant forall j :: 0 <= j < i ==> SafeChar(s.value[j])
    {
      var p := s.value[i];
      if p as int < 0x20 || p as int > 0x7e || p == '"' || p == '\\' {
        return false;
      }
    }
    ok := true;
  }

  const ACTOR_MAX: nat := 128

  /** `fhsm_audit_set_actor`: what the thread's actor becomes. The filter runs
      on the text that survived the cut. */
  method SetActor(subject: Option<string>) returns (actor: string)
    ensures |actor| < ACTOR_MAX && Safe(actor)
    ensures subject.None? ==> actor == ""
    ensures subject.Some? && |subject.value| < ACTOR_MAX ==>
              actor == if Safe(subject.value) then subject.value else "INVALID"
    ensures subject.Some? && |subject.value| >= ACTOR_MAX ==>
              var cut := subject.value[..ACTOR_MAX - 1]; actor == if Safe(cut) then cut else "INVALID"
  {
    if subject.None? {
      return "";
    }
    var tmp := if |subject.value| < ACTOR_MAX then subject.value else subject.value[..ACTOR_MAX - 1];
    var ok := SafeAscii(Some(tmp));
    if !ok {
      return "INVALID";
    }
    actor := tmp;
  }

  // -------------------------------------------------------------- parameters

  datatype Pair = Pair(key: string, value: Option<string>)

  const PARAMS_SIZE: nat := 1024

  function Filtered(p: Pair): string {
    if Safe(p.key) && p.value.Some? && Safe(p.value.value) then p.value.value else "INVALID"
  }

  function Entry(key: string, value: string, first: bool): string {
    (if first then "" else ",") + "\"" + key + "\":\"" + value + "\""
  }

  /** The parameter text without its closing brace and without any limit. */
  function Unbounded(pairs: seq<Pair>): string {
    if pairs == [] then "{"
    else Unbounded(pairs[..|pairs| - 1]) + Entry(pairs[|pairs| - 1].key, Filtered(pairs[|pairs| - 1]), |pairs| == 1)
  }

  predicate Overflows(pairs: seq<Pair>) { |Unbounded(pairs)| >= PARAMS_SIZE }

  /** What reaches the line: everything, or an empty object when the whole does
      not fit. A text of exactly 1023 bytes loses its closing brace. */
  function Params(pairs: seq<Pair>): (s: string)
    ensures 1 <= |s| < PARAMS_SIZE
  {
    if Overflows(pairs) then "{}"
    else if |Unbounded(pairs)| < PARAMS_SIZE - 1 then Unbounded(pairs) + "}"
    else Unbounded(pairs)
  }

  lemma {:induction false} UnboundedGrows(pairs: seq<Pair>, i: nat)
    requires i <= |pairs|
    ensures |Unbounded(pairs[..i])| <= |Unbounded(pairs)|
    decreases |pairs| - i
  {
    if i == |pairs| {
      assert pairs[..i] == pairs;
    } else {
      assert pairs[..i + 1][..i] == pairs[..i];
      UnboundedGrows(pairs, i + 1);
    }
  }

  /** The buffer-filling loop, with its give-up branch. */
  method BuildParams(pairs: seq<Pair>) returns (params: string)
    ensures params == Params(pairs)
  {
    hide Safe, Entry;
    var buf, first := "{", true;
    var i := 0;
    while i < |pairs|
      invariant 0 <= i <= |pairs|
      invariant buf == Unbounded(pairs[..i]) && |buf| < PARAMS_SIZE
      invariant first == (i == 0)
    {
      var k, v := pairs[i].key, pairs[i].value;
      var safeKey := SafeAscii(Some(k));
      var safeValue := SafeAscii(v);
      var text := if safeKey && safeValue then v.value else "INVALID";
      var piece := Entry(k, text, first);
      assert pairs[..i + 1][..i] == pairs[..i];
      if |piece| >= PARAMS_SIZE - |buf| {
        UnboundedGrows(pairs, i + 1);
        return "{}";
      }
      buf, first, i := buf + piece, false, i + 1;
    }
    assert pairs[..i] == pairs;
    if |buf| < PARAMS_SIZE - 1 {
      buf := buf + "}";
    }
    params := buf;
  }

  // --------------------------------------------------------------------- line

  datatype Role = SO | USER | NONE

  datatype Event = Event(ts: int, name: string, slot: int, session: int, role: Role,
                         actor: string, rv: nat, pairs: seq<Pair>)

  /** What the C types and the actor filter guarantee about one event. */
  predicate InRange(ev: Event) {
    && -0x8000_0000_0000_0000 <= ev.ts < 0x8000_0000_0000_0000
    && -0x8000_0000 <= ev.slot < 0x8000_0000
    && -0x8000_0000 <= ev.session < 0x8000_0000
    && ev.rv < 0x1_0000_0000
    && |ev.name| <= 16 && Safe(ev.name)
    && |ev.actor| < ACTOR_MAX && Safe(ev.actor)
  }

  function RoleName(role: Role): string {
    match role case SO => "SO" case USER => "USER" case NONE => "NONE"
  }

  function ResultName(rv: nat): string { if rv == 0 then "OK" else "FAIL" }

  /** Quote-separated text: the segments with one quotation mark between neighbours. */
  function Join(segs: seq<string>): string
    requires segs != []
  {
    if |segs| == 1 then segs[0] else segs[0] + "\"" + Join(segs[1..])
  }

  function HeadSegs(seqno: nat, ev: Event): (r: seq<string>)
    ensures |r| == 29
  {
    ["{", "seq", ":" + Dec(seqno) + ",", "ts", ":" + DecInt(ev.ts) + ",", "event", ":", ev.name, ",",
     "slot", ":" + DecInt(ev.slot) + ",", "session", ":" + DecInt(ev.session) + ",",
     "role", ":", RoleName(ev.role), ",", "actor", ":", ev.actor, ",", "result", ":", ResultName(ev.rv), ",",
     "rv", ":" + Dec(ev.rv) + ",", "params", ":"]
  }

  function TailSegs(prev: Tag): (r: seq<string>)
    ensures |r| == 5
  {
    [",", "prev_hmac", ":", Hex(prev), ","]
  }

  function SuffixSegs(tag: Tag): (r: seq<string>)
    ensures |r| == 5
  {
    ["", "hmac", ":", Hex(tag), "}"]
  }

  /** The authenticated part of a line: everything before the `hmac` field. */
  function Body(seqno: nat, ev: Event, prev: Tag): string {
    Join(HeadSegs(seqno, ev)) + Params(ev.pairs) + Join(TailSegs(prev))
  }

  /** The line without its newline. */
  function Shown(seqno: nat, ev: Event, prev: Tag, tag: Tag): string {
    Body(seqno, ev, prev) + Join(SuffixSegs(tag))
  }

  function Line(seqno: nat, ev: Event, prev: Tag, tag: Tag): string {
    Shown(seqno, ev, prev, tag) + "\n"
  }

  function JoinLen(segs: seq<string>): nat {
    if segs == [] then 0 else |segs[0]| + 1 + JoinLen(segs[1..])
  }

  lemma {:induction false} JoinLength(segs: seq<string>)
    requires segs != []
    ensures |Join(segs)| + 1 == JoinLen(segs)
  {
    if |segs| > 1 {
      JoinLength(segs[1..]);
    }
  }

  lemma DecIntWidth(i: int, k: nat)
    requires k >= 1 && 0 - Pow10(k) < i < Pow10(k)
    ensures |DecInt(i)| <= k + 1
    ensures i >= 0 ==> |DecInt(i)| <= k
  {
    DecWidth(if i < 0 then -i else i, k);
  }

  lemma Pow10Values()
    ensures Pow10(10) == 10_000_000_000
    ensures Pow10(19) == 10_000_000_000_000_000_000
    ensures Pow10(20) == 100_000_000_000_000_000_000
  {
    assert Pow10(4) == 10_000;
    assert Pow10(7) == 10_000_000;
    assert Pow10(10) == 10_000_000_000;
    assert Pow10(13) == 10_000_000_000_000;
    assert Pow10(16) == 10_000_000_000_000_000;
    assert Pow10(19) == 10_000_000_000_000_000_000;
  }

  lemma {:induction false} JoinLenBound(segs: seq<string>, most: nat)
    requires forall i :: 0 <= i < |segs| ==> |segs[i]| <= most
    ensures JoinLen(segs) <= |segs| * (most + 1)
  {
    if segs != [] {
      JoinLenBound(segs[1..], most);
    }
  }

  lemma {:induction false} JoinLenSplit(a: seq<string>, b: seq<string>)
    ensures JoinLen(a + b) == JoinLen(a) + JoinLen(b)
  {
    if a == [] {
      assert a + b == b;
    } else {
      assert (a + b)[1..] == a[1..] + b;
      JoinLenSplit(a[1..], b);
    }
  }

  /** Every segment but the actor is at most a 20-digit number between a colon and a comma. */
  lemma HeadSegWidth(seqno: nat, ev: Event)
    requires seqno < U64 && InRange(ev)
    ensures forall i :: 0 <= i < 29 && i != 19 ==> |HeadSegs(seqno, ev)[i]| <= 22
  {
    Pow10Values();
    DecWidth(seqno, 20);
    DecIntWidth(ev.ts, 19);
    DecIntWidth(ev.slot, 10);
    DecIntWidth(ev.session, 10);
    DecWidth(ev.rv, 10);
  }

  lemma HeadWidth(seqno: nat, ev: Event)
    requires seqno < U64 && InRange(ev)
    ensures |Join(HeadSegs(seqno, ev))| < 28 * 23 + ACTOR_MAX
  {
    var h := HeadSegs(seqno, ev);
    HeadSegWidth(seqno, ev);
    JoinLength(h);
    assert h == h[..19] + ([ev.actor] + h[20..]);
    JoinLenSplit(h[..19], [ev.actor] + h[20..]);
    JoinLenSplit([ev.actor], h[20..]);
    JoinLenBound(h[..19], 22);
    JoinLenBound(h[20..], 22);
    assert JoinLen([ev.actor]) == |ev.actor| + 1;
  }

  lemma JoinLenStep(segs: seq<string>, k: nat)
    requires k < |segs|
    ensures JoinLen(segs[k..]) == |segs[k]| + 1 + JoinLen(segs[k + 1..])
  {
    assert segs[k..][1..] == segs[k + 1..];
  }

  lemma JoinOf5Width(segs: seq<string>)
    requires |segs| == 5 && |segs[0]| <= 1 && |segs[1]| <= 9 && |segs[2]| <= 1 && |segs[3]| == 64 && |segs[4]| <= 2
    ensures |Join(segs)| <= 81
  {
    hide Join;
    JoinLength(segs);
    assert segs[0..] == segs && JoinLen(segs[5..]) == 0;
    hide JoinLen;
    JoinLenStep(segs, 0);
    JoinLenStep(segs, 1);
    JoinLenStep(segs, 2);
    JoinLenStep(segs, 3);
    JoinLenStep(segs, 4);
  }

  const LINE_SIZE: nat := 2048

  /** Neither truncation branch can be taken: whatever the parameters, the full
      line stays below the 2048-byte buffer. */
  lemma LineFits(seqno: nat, ev: Event, prev: Tag, tag: Tag)
    requires seqno < U64 && InRange(ev)
    ensures |Line(seqno, ev, prev, tag)| < LINE_SIZE
  {
    HeadWidth(seqno, ev);
    JoinOf5Width(TailSegs(prev));
    JoinOf5Width(SuffixSegs(tag));
  }
}
