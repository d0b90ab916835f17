/** What acceptance by the verifier means: a log the writer left is accepted,
    and an accepted file holds the work of one opening. */
module AuditIntegrity {
  import opened CText
  import opened AuditLine
  import opened AuditSearch
  import opened AuditChain

  /** Keys are printed as they come; none may break out of its string or its line. */
  predicate GoodEvent(ev: Event) {
    && InRange(ev) && KeysLack(Printed(ev.pairs), '"')
    && KeysLack(Printed(ev.pairs), '\n') && KeysLack(Printed(ev.pairs), NUL)
  }

  /** No printed parameter is named like one of the two tag fields. */
  predicate Clean(ev: Event) {
    NoKey(Printed(ev.pairs), "hmac") && NoKey(Printed(ev.pairs), "prev_hmac")
  }

  predicate AllWritten(o: Opening, n: nat)
    requires n <= |o|
  {
    forall i :: 0 <= i < n ==> o[i].outcome.Written? && GoodEvent(o[i].ev)
  }

  function ShownOf(mac: Mac, o: Opening, i: nat): string
    requires i < |o|
  {
    Shown((i + 1) % U64, o[i].ev, Prev(mac, o, i), mac(BodyOf(mac, o, i)))
  }

  // ------------------------------------------------- reading a log back

  lemma {:induction false} ChunkLenStopsAtNewline(a: string, b: string, cap: nat)
    requires cap >= 1 && a != "" && a[|a| - 1] == '\n'
    ensures ChunkLen(a + b, cap) == ChunkLen(a, cap)
    decreases |a|
  {
    if a[0] != '\n' && cap > 1 {
      assert (a + b)[1..] == a[1..] + b;
      ChunkLenStopsAtNewline(a[1..], b, cap - 1);
    }
  }

  lemma ConcatSlices(a: string, b: string, n: nat)
    requires n <= |a|
    ensures (a + b)[..n] == a[..n] && (a + b)[n..] == a[n..] + b
  {
  }

  /** Text that ends in a newline is read the same whatever follows. */
  lemma {:induction false} ChunksConcat(a: string, b: string, cap: nat)
    requires cap >= 1 && (a == "" || a[|a| - 1] == '\n')
    ensures Chunks(a + b, cap) == Chunks(a, cap) + Chunks(b, cap)
    decreases |a|
  {
    hide ChunkLen;
    if a == "" {
      assert a + b == b;
    } else {
      ChunkLenStopsAtNewline(a, b, cap);
      var n := ChunkLen(a, cap);
      ConcatSlices(a, b, n);
      ChunksConcat(a[n..], b, cap);
    }
  }

  lemma LinesConcat(a: string, b: string)
    requires a == "" || a[|a| - 1] == '\n'
    ensures Lines(a + b) == Lines(a) + Lines(b)
  {
    hide Chunks, Seen;
    ChunksConcat(a, b, READ_CAP);
  }

  lemma LineReadsBack(seqno: nat, ev: Event, prev: Tag, tag: Tag)
    requires seqno < U64 && GoodEvent(ev)
    ensures Lines(Line(seqno, ev, prev, tag)) == [Shown(seqno, ev, prev, tag)]
  {
    hide Body, Shown;
    var line, shown := Line(seqno, ev, prev, tag), Shown(seqno, ev, prev, tag);
    LineFits(seqno, ev, prev, tag);
    ShownOneLine(seqno, ev, prev, tag, '\n');
    ShownOneLine(seqno, ev, prev, tag, NUL);
    assert line + "" == line && line[..|line| - 1] == shown;
    ChunksOfLine(line, "", READ_CAP);
    assert NUL !in line;
    assert Seen(line) == shown;
  }

  lemma LineOfReadsBack(mac: Mac, o: Opening, i: nat)
    requires i < |o| && GoodEvent(o[i].ev)
    ensures var line := LineOf(mac, o, i);
            Lines(line) == [ShownOf(mac, o, i)] && line != "" && line[|line| - 1] == '\n'
  {
    hide Shown, Lines, Prev, BodyOf, GoodEvent;
    LineReadsBack((i + 1) % U64, o[i].ev, Prev(mac, o, i), mac(BodyOf(mac, o, i)));
  }

  lemma {:induction false} TextReadsBack(mac: Mac, o: Opening, n: nat)
    requires n <= |o| && AllWritten(o, n)
    ensures |Lines(Text(mac, o, n))| == n
    ensures forall i :: 0 <= i < n ==> Lines(Text(mac, o, n))[i] == ShownOf(mac, o, i)
    ensures n > 0 ==> Text(mac, o, n) != "" && Text(mac, o, n)[|Text(mac, o, n)| - 1] == '\n'
  {
    hide Lines, LineOf, ShownOf, GoodEvent, Text;
    TextStep(mac, o, n);
    if n == 0 {
      NoLines();
    } else {
      TextReadsBack(mac, o, n - 1);
      TextStep(mac, o, n - 1);
      LineOfReadsBack(mac, o, n - 1);
      LinesConcat(Text(mac, o, n - 1), LineOf(mac, o, n - 1));
    }
  }

  lemma TextStep(mac: Mac, o: Opening, n: nat)
    requires n <= |o| && AllWritten(o, n)
    ensures n == 0 ==> Text(mac, o, n) == ""
    ensures n > 0 ==> Text(mac, o, n) == Text(mac, o, n - 1) + LineOf(mac, o, n - 1)
  {
    hide LineOf, GoodEvent;
  }

  // ------------------------------------------------------ honest logs

  /** Every line of the writer passes the three checks, and the verifier
      authenticates exactly the bytes the writer did. */
  lemma HonestLink(mac: Mac, n: nat, ev: Event, prev: Tag)
    requires GoodEvent(ev) && Clean(ev)
    ensures var body := Body(n % U64, ev, prev);
            var shown := Shown(n % U64, ev, prev, mac(body));
            LinkOk(mac, shown, n, prev) && Authenticated(shown) == body
  {
    hide Body, Shown, LinkOk, Authenticated, GoodEvent, Printed;
    HarmlessLink(mac, n, ev, prev, prev);
  }

  /** Text behind a body does not change the `prev_hmac` field read from it. */
  lemma PrevFieldSurvives(body: string, rest: string)
    requires PrevField(body).Some?
    ensures PrevField(body + rest) == PrevField(body)
  {
    hide StrStr, UnhexAt, Field;
    StrStrPrefix(body, rest, Field("prev_hmac"));
    var at := StrStr(body, Field("prev_hmac")) + 13;
    assert (body + rest)[..|body|] == body;
    UnhexCut(body + rest, |body|, at);
  }

  /** Every log of a run without a failed write, cut at any line boundary, is accepted. */
  lemma HonestLogAccepted(mac: Mac, o: Opening, n: nat)
    requires n <= |o| && AllWritten(o, n)
    requires forall i :: 0 <= i < n ==> Clean(o[i].ev)
    ensures Accepted(mac, Text(mac, o, n))
  {
    hide Body, Shown, LinkOk, Authenticated;
    TextReadsBack(mac, o, n);
    var lines := Lines(Text(mac, o, n));
    forall i | 0 <= i < n
      ensures LinkOk(mac, lines[i], i + 1, Expected(mac, lines, i))
    {
      HonestLink(mac, i + 1, o[i].ev, Prev(mac, o, i));
      if i > 0 {
        HonestLink(mac, i, o[i - 1].ev, Prev(mac, o, i - 1));
      }
    }
  }

  // --------------------------------- exactly when an honest log is accepted

  lemma FirstOfName(pairs: seq<Pair>, w: string) returns (m: nat)
    requires !NoKey(pairs, w)
    ensures m < |pairs| && pairs[m].key == w && NoKey(pairs[..m], w)
  {
    m := 0;
    while pairs[m].key != w
      invariant m < |pairs| && NoKey(pairs[..m], w)
      invariant exists i :: m <= i < |pairs| && pairs[i].key == w
      decreases |pairs| - m
    {
      m := m + 1;
    }
  }

  /** What the first printed parameter named `w` reads as, taken for a tag. */
  function NamesakeReads(pairs: seq<Pair>, w: string): Option<Tag> {
    if pairs == [] then None
    else if pairs[0].key == w then UnhexAt(Filtered(pairs[0]), 0)
    else NamesakeReads(pairs[1..], w)
  }

  lemma {:induction false} NamesakeReadsFirst(pairs: seq<Pair>, w: string, m: nat)
    requires m < |pairs| && pairs[m].key == w && NoKey(pairs[..m], w)
    ensures NamesakeReads(pairs, w) == UnhexAt(Filtered(pairs[m]), 0)
  {
    hide UnhexAt, Filtered;
    if m > 0 {
      assert pairs[..m][0] == pairs[0];
      assert pairs[1..][..m - 1] == pairs[..m][1..];
      NamesakeReadsFirst(pairs[1..], w, m - 1);
    }
  }

  /** What the verifier reads from a written line where a parameter bears the name
      of a tag field. */
  lemma NamesakeRead(seqno: nat, ev: Event, prev: Tag, tag: Tag, w: string)
    requires GoodEvent(ev) && TagName(w) && !NoKey(Printed(ev.pairs), w)
    ensures w == "hmac" ==> Recorded(Shown(seqno, ev, prev, tag)) == NamesakeReads(Printed(ev.pairs), w)
    ensures w == "prev_hmac" ==> PrevField(Shown(seqno, ev, prev, tag)) == NamesakeReads(Printed(ev.pairs), w)
  {
    hide HeadSegs, TailSegs, SuffixSegs, Join, Glue, Printed, UnhexAt, StrStr, Field, Shaped, QuoteFree, BodySegs;
    var m := FirstOfName(Printed(ev.pairs), w);
    FieldShape(w);
    JoinBody(seqno, ev, prev);
    BodyQuoteFree(seqno, ev, prev);
    BodyShaped(seqno, ev, prev);
    NamesakeCatches(BodySegs(seqno, ev, prev), Printed(ev.pairs), prev, tag, w, m);
    NamesakeReadsFirst(Printed(ev.pairs), w, m);
  }

  /** No printed parameter is named `hmac`, and the first one named `prev_hmac`, if
      any, happens to read as the predecessor's tag. */
  predicate Harmless(ev: Event, prev: Tag) {
    var pairs := Printed(ev.pairs);
    NoKey(pairs, "hmac") && (NoKey(pairs, "prev_hmac") || NamesakeReads(pairs, "prev_hmac") == Some(prev))
  }

  /** The first printed parameter named `hmac`, if any, does not read as a tag. */
  predicate PlainTagNames(ev: Event) {
    NoKey(Printed(ev.pairs), "hmac") || NamesakeReads(Printed(ev.pairs), "hmac").None?
  }

  lemma HarmlessLink(mac: Mac, n: nat, ev: Event, prev: Tag, link: Tag)
    requires GoodEvent(ev) && NoKey(Printed(ev.pairs), "hmac")
    ensures var body := Body(n % U64, ev, prev);
            var shown := Shown(n % U64, ev, prev, mac(body));
            && Authenticated(shown) == body
            && (link == prev ==> (LinkOk(mac, shown, n, link) <==> Harmless(ev, prev)))
  {
    hide Body, SuffixSegs, Join, UnhexAt, StrToUll, Dec, Field, Printed, StrStr;
    FieldShape("hmac");
    var body := Body(n % U64, ev, prev);
    var shown := Shown(n % U64, ev, prev, mac(body));
    HmacLands(n % U64, ev, prev, mac(body));
    assert shown[..|body|] == body;
    SeqLands(n % U64, ev, prev, Join(SuffixSegs(mac(body))));
    if NoKey(Printed(ev.pairs), "prev_hmac") {
      PrevLands(n % U64, ev, prev);
      PrevFieldSurvives(body, Join(SuffixSegs(mac(body))));
    } else {
      NamesakeRead(n % U64, ev, prev, mac(body), "prev_hmac");
    }
  }

  lemma HmacNamesakeBreaks(mac: Mac, seqno: nat, ev: Event, prev: Tag, tag: Tag, n: nat, link: Tag)
    requires GoodEvent(ev) && PlainTagNames(ev) && !NoKey(Printed(ev.pairs), "hmac")
    ensures !LinkOk(mac, Shown(seqno, ev, prev, tag), n, link)
  {
    hide Shown, Recorded, PrevField, Authenticated;
    NamesakeRead(seqno, ev, prev, tag, "hmac");
  }

  /** Attempt `i` was written so that the verifier takes it for what it is. */
  predicate Honest(mac: Mac, o: Opening, i: nat)
    requires i < |o|
  {
    Harmless(o[i].ev, Prev(mac, o, i))
  }

  /** A log without a failed write is accepted if and only if every printed
      parameter named `hmac` is absent and the first one named `prev_hmac` is absent
      or reads as the predecessor's tag. */
  lemma HonestLogAcceptedIff(mac: Mac, o: Opening, n: nat)
    requires n <= |o| && AllWritten(o, n)
    requires forall i :: 0 <= i < n ==> PlainTagNames(o[i].ev)
    ensures Accepted(mac, Text(mac, o, n)) <==> forall i :: 0 <= i < n ==> Honest(mac, o, i)
  {
    hide Body, Shown, LinkOk, PlainTagNames, Text, Lines, GoodEvent, Authenticated, Harmless, Printed, Prev;
    TextReadsBack(mac, o, n);
    if forall i :: 0 <= i < n ==> NoKey(Printed(o[i].ev.pairs), "hmac") {
      var lines := Lines(Text(mac, o, n));
      forall i | 0 <= i < n
        ensures LinkOk(mac, lines[i], i + 1, Expected(mac, lines, i)) <==> Honest(mac, o, i)
      {
        LinkIff(mac, o, n, i);
      }
    } else {
      var i: nat :| i < n && !NoKey(Printed(o[i].ev.pairs), "hmac");
      HmacNamesakeBreaks(mac, (i + 1) % U64, o[i].ev, Prev(mac, o, i), mac(BodyOf(mac, o, i)), i + 1,
                         Expected(mac, Lines(Text(mac, o, n)), i));
      assert !Honest(mac, o, i) by { NotHarmless(o[i].ev, Prev(mac, o, i)); }
    }
  }

  lemma NotHarmless(ev: Event, prev: Tag)
    requires !NoKey(Printed(ev.pairs), "hmac")
    ensures !Harmless(ev, prev)
  {
  }

  lemma LinkIff(mac: Mac, o: Opening, n: nat, i: nat)
    requires i < n <= |o| && AllWritten(o, n) && forall j :: 0 <= j < n ==> NoKey(Printed(o[j].ev.pairs), "hmac")
    ensures |Lines(Text(mac, o, n))| == n
    ensures var lines := Lines(Text(mac, o, n));
            LinkOk(mac, lines[i], i + 1, Expected(mac, lines, i)) <==> Honest(mac, o, i)
  {
    hide Body, Shown, LinkOk, Text, Lines, GoodEvent, Authenticated, Harmless, Printed;
    TextReadsBack(mac, o, n);
    HarmlessLink(mac, i + 1, o[i].ev, Prev(mac, o, i), Prev(mac, o, i));
    if i > 0 {
      HarmlessLink(mac, i, o[i - 1].ev, Prev(mac, o, i - 1), Prev(mac, o, i - 1));
    }
  }

  // ---------------------------------------------------------- integrity

  /** The openings that shared one key: fewer than 2^64 attempts each, whose
      parameter names stay clear of the tag fields. */
  predicate Wellformed(opens: seq<Opening>) {
    forall k, i :: 0 <= k < |opens| && 0 <= i < |opens[k]| ==>
      i + 1 < U64 && GoodEvent(opens[k][i].ev) && Clean(opens[k][i].ev)
  }

  /** The author computed a tag for this attempt. */
  predicate Tagged(a: Attempt) { !a.outcome.NoMac? }

  /** `b` is a text the author MACed: the chain head's, or the body of some attempt. */
  predicate Maced(mac: Mac, opens: seq<Opening>, b: string) {
    || b == INIT
    || exists k, i :: 0 <= k < |opens| && 0 <= i < |opens[k]| && Tagged(opens[k][i]) && b == BodyOf(mac, opens[k], i)
  }

  /** No two MACed texts share a tag. */
  ghost predicate CollisionFree(mac: Mac, opens: seq<Opening>) {
    forall a, b :: Maced(mac, opens, a) && Maced(mac, opens, b) && mac(a) == mac(b) ==> a == b
  }

  /** Whoever made the file could not compute a tag: each line that carries the
      right tag of its own authenticated part carries one the author computed. */
  predicate Unforged(mac: Mac, opens: seq<Opening>, lines: seq<string>) {
    forall i :: 0 <= i < |lines| && Recorded(lines[i]) == Some(mac(Authenticated(lines[i]))) ==>
      Maced(mac, opens, Authenticated(lines[i]))
  }

  /** The lines are attempts 1, 2, ... of one opening, all but perhaps the last written whole. */
  predicate FromOpening(mac: Mac, o: Opening, lines: seq<string>) {
    && |lines| <= |o|
    && (forall i :: 0 <= i < |lines| ==> Authenticated(lines[i]) == BodyOf(mac, o, i) && Tagged(o[i]))
    && (forall i :: 0 <= i < |lines| - 1 ==> o[i].outcome.Written?)
  }

  /** What the verifier reads from a line whose authenticated part is a body of the author. */
  lemma FieldsOfBody(mac: Mac, o: Opening, i: nat, line: string)
    requires i < |o| && GoodEvent(o[i].ev) && Clean(o[i].ev)
    requires Recorded(line).Some? && Authenticated(line) == BodyOf(mac, o, i)
    ensures PrevField(line) == Some(Prev(mac, o, i))
    ensures SeqField(line) == Some((i + 1) % U64)
  {
    hide HeadSegs, TailSegs, SuffixSegs, Join, Params, UnhexAt, StrToUll, Dec, Recorded;
    var h := StrStr(line, Field("hmac"));
    var body := BodyOf(mac, o, i);
    assert h >= 0 by { ReadableHasField(line); }
    var rest := line[h..];
    assert line == body + rest;
    PrevLands((i + 1) % U64, o[i].ev, Prev(mac, o, i));
    PrevFieldSurvives(body, rest);
    SeqLands((i + 1) % U64, o[i].ev, Prev(mac, o, i), rest);
  }

  lemma ReadableHasField(line: string)
    requires Recorded(line).Some?
    ensures StrStr(line, Field("hmac")) >= 0
  {
  }

  /** A body determines its position in its opening. */
  lemma BodyTellsPosition(mac: Mac, o: Opening, i: nat, o': Opening, i': nat)
    requires i < |o| && i' < |o'| && i + 1 < U64 && i' + 1 < U64
    requires BodyOf(mac, o, i) == BodyOf(mac, o', i')
    ensures i == i'
  {
    hide Body, StrToUll;
    SeqLands(i + 1, o[i].ev, Prev(mac, o, i), "");
    SeqLands(i' + 1, o'[i'].ev, Prev(mac, o', i'), "");
  }

  lemma InitIsNoBody(seqno: nat, ev: Event, prev: Tag)
    ensures Body(seqno, ev, prev) != INIT
  {
    hide HeadSegs, TailSegs, Params, Join;
    var t := HeadText(seqno, ev);
    assert Body(seqno, ev, prev)[0] == '{';
    assert INIT[0] == 'F';
  }

  lemma {:induction false} PrevOrigin(mac: Mac, o: Opening, i: nat) returns (m: int)
    requires i <= |o|
    ensures -1 <= m < i
    ensures m == -1 ==> Prev(mac, o, i) == mac(INIT)
    ensures m >= 0 ==> o[m].outcome.Written? && Prev(mac, o, i) == mac(BodyOf(mac, o, m))
  {
    hide Body;
    if i == 0 {
      m := -1;
    } else if o[i - 1].outcome.Written? {
      m := i - 1;
    } else {
      m := PrevOrigin(mac, o, i - 1);
    }
  }

  predicate NoHeadLines(lines: seq<string>) {
    forall i :: 0 <= i < |lines| ==> Authenticated(lines[i]) != INIT
  }

  /** The setting of the integrity theorem. */
  ghost predicate Setting(mac: Mac, opens: seq<Opening>, lines: seq<string>) {
    && Wellformed(opens) && CollisionFree(mac, opens) && Unforged(mac, opens, lines)
    && LinksTo(mac, lines, |lines|)
  }

  /** What acceptance says about one line. */
  lemma AcceptedLine(mac: Mac, opens: seq<Opening>, lines: seq<string>, i: nat)
    requires Setting(mac, opens, lines) && i < |lines|
    ensures Recorded(lines[i]).Some? && Maced(mac, opens, Authenticated(lines[i]))
    ensures PrevField(lines[i]) == Some(Expected(mac, lines, i))
    ensures SeqField(lines[i]) == Some((i + 1) % U64)
  {
    hide Maced, Wellformed, CollisionFree, Authenticated, Recorded, PrevField, SeqField;
    assert LinkOk(mac, lines[i], i + 1, Expected(mac, lines, i));
  }

  lemma MacedOrigin(mac: Mac, opens: seq<Opening>, b: string) returns (k: nat, j: nat)
    requires Wellformed(opens) && Maced(mac, opens, b) && b != INIT
    ensures k < |opens| && j < |opens[k]| && Tagged(opens[k][j]) && b == BodyOf(mac, opens[k], j)
    ensures j + 1 < U64 && GoodEvent(opens[k][j].ev) && Clean(opens[k][j].ev)
  {
    hide BodyOf, GoodEvent, Clean;
    k, j :| 0 <= k < |opens| && 0 <= j < |opens[k]| && Tagged(opens[k][j]) && b == BodyOf(mac, opens[k], j);
  }

  /** An accepted line that is not the head's text is, in some opening, the
      attempt of the same number. */
  lemma LineOrigin(mac: Mac, opens: seq<Opening>, lines: seq<string>, i: nat) returns (k: nat)
    requires Setting(mac, opens, lines) && i < |lines| && Authenticated(lines[i]) != INIT
    ensures i % U64 < U64 - 1
    ensures k < |opens| && i % U64 < |opens[k]| && Tagged(opens[k][i % U64])
    ensures Authenticated(lines[i]) == BodyOf(mac, opens[k], i % U64)
    ensures PrevField(lines[i]) == Some(Prev(mac, opens[k], i % U64))
  {
    hide BodyOf, Authenticated, Recorded, PrevField, SeqField, Prev, Clean, GoodEvent;
    hide Maced, Wellformed, CollisionFree, Unforged, LinksTo;
    var j: nat;
    AcceptedLine(mac, opens, lines, i);
    k, j := MacedOrigin(mac, opens, Authenticated(lines[i]));
    FieldsOfBody(mac, opens[k], j, lines[i]);
    SuccMod(i, j);
  }

  lemma SuccMod(i: nat, j: nat)
    requires j + 1 < U64 && (i + 1) % U64 == (j + 1) % U64
    ensures i % U64 == j
  {
  }

  /** No accepted file without head lines has 2^64 lines: line 2^64 would need the number 0. */
  lemma FileIsShort(mac: Mac, opens: seq<Opening>, lines: seq<string>)
    requires Setting(mac, opens, lines) && NoHeadLines(lines)
    ensures |lines| < U64
  {
    hide Setting, Authenticated, BodyOf, Prev, PrevField;
    if |lines| >= U64 {
      var k := LineOrigin(mac, opens, lines, U64 - 1);
      assert false;
    }
  }

  /** One link backwards: the predecessor of an accepted line is its predecessor in its own opening. */
  lemma LinkBack(mac: Mac, opens: seq<Opening>, lines: seq<string>, k: nat, i: nat)
    requires Setting(mac, opens, lines) && NoHeadLines(lines) && |lines| < U64
    requires k < |opens| && 1 <= i < |lines| && i < |opens[k]|
    requires PrevField(lines[i]) == Some(Prev(mac, opens[k], i))
    ensures opens[k][i - 1].outcome.Written?
    ensures Authenticated(lines[i - 1]) == BodyOf(mac, opens[k], i - 1)
    ensures PrevField(lines[i - 1]) == Some(Prev(mac, opens[k], i - 1))
  {
    hide BodyOf, Authenticated, Recorded, PrevField, SeqField, Prev, Clean, GoodEvent;
    hide Maced, Wellformed, CollisionFree, Unforged, LinksTo;
    AcceptedLine(mac, opens, lines, i);
    AcceptedLine(mac, opens, lines, i - 1);
    var k' := LineOrigin(mac, opens, lines, i - 1);
    var m := PrevOrigin(mac, opens[k], i);
    SamePredecessor(mac, opens, k, m, Authenticated(lines[i - 1]));
    WellformedAt(opens, k, m);
    BodyTellsPosition(mac, opens[k], m, opens[k'], i - 1);
    FieldsOfBody(mac, opens[k], i - 1, lines[i - 1]);
  }

  lemma WellformedAt(opens: seq<Opening>, k: nat, m: nat)
    requires Wellformed(opens) && k < |opens| && m < |opens[k]|
    ensures m + 1 < U64 && GoodEvent(opens[k][m].ev) && Clean(opens[k][m].ev)
  {
  }

  /** Equal tags of MACed texts mean equal texts, and the head's text is excluded. */
  lemma SamePredecessor(mac: Mac, opens: seq<Opening>, k: nat, m: int, before: string)
    requires CollisionFree(mac, opens) && k < |opens| && -1 <= m < |opens[k]|
    requires m >= 0 ==> opens[k][m].outcome.Written?
    requires Maced(mac, opens, before) && before != INIT
    requires mac(before) == if m == -1 then mac(INIT) else mac(BodyOf(mac, opens[k], m))
    ensures m >= 0 && BodyOf(mac, opens[k], m) == before
  {
    hide BodyOf;
    var x := if m == -1 then INIT else BodyOf(mac, opens[k], m);
    assert Maced(mac, opens, x);
  }

  lemma {:induction false} ChainBack(mac: Mac, opens: seq<Opening>, lines: seq<string>, k: nat, i: nat)
    requires Setting(mac, opens, lines) && NoHeadLines(lines) && |lines| < U64
    requires k < |opens| && i < |lines| && i < |opens[k]|
    requires PrevField(lines[i]) == Some(Prev(mac, opens[k], i))
    ensures forall j :: 0 <= j < i ==>
              opens[k][j].outcome.Written? && Authenticated(lines[j]) == BodyOf(mac, opens[k], j)
  {
    hide Setting, Authenticated, BodyOf, Prev, PrevField;
    if i > 0 {
      LinkBack(mac, opens, lines, k, i);
      ChainBack(mac, opens, lines, k, i - 1);
    }
  }

  /** Chain integrity: an accepted file is the beginning of one opening if and
      only if none of its lines authenticates the head's own text. */
  lemma ChainIntegrity(mac: Mac, opens: seq<Opening>, lines: seq<string>)
    requires Setting(mac, opens, lines) && lines != []
    ensures NoHeadLines(lines) <==> exists k :: 0 <= k < |opens| && FromOpening(mac, opens[k], lines)
  {
    hide Setting, Authenticated, BodyOf, Prev, PrevField;
    if NoHeadLines(lines) {
      FileIsShort(mac, opens, lines);
      var last := |lines| - 1;
      var k := LineOrigin(mac, opens, lines, last);
      assert last % U64 == last;
      ChainBack(mac, opens, lines, k, last);
      assert FromOpening(mac, opens[k], lines);
    }
    if k :| 0 <= k < |opens| && FromOpening(mac, opens[k], lines) {
      NotTheHead(mac, opens[k], lines);
    }
  }

  lemma NotTheHead(mac: Mac, o: Opening, lines: seq<string>)
    requires FromOpening(mac, o, lines)
    ensures NoHeadLines(lines)
  {
    hide Body, Authenticated;
    forall i | 0 <= i < |lines|
      ensures Authenticated(lines[i]) != INIT
    {
      InitIsNoBody((i + 1) % U64, o[i].ev, Prev(mac, o, i));
    }
  }

  lemma ShownIsBody(mac: Mac, opens: seq<Opening>, lines: seq<string>, k: nat, i: nat)
    requires Setting(mac, opens, lines) && k < |opens| && i < |opens[k]|
    ensures Authenticated(ShownOf(mac, opens[k], i)) == BodyOf(mac, opens[k], i)
  {
    hide LinksTo, CollisionFree, Unforged, Authenticated, Clean, GoodEvent, Body, Shown, Prev;
    WellformedAt(opens, k, i);
    HonestLink(mac, i + 1, opens[k][i].ev, Prev(mac, opens[k], i));
  }

  /** With no failed write at all, the accepted lines are the first lines of one log. */
  lemma IntactLogIsPrefix(mac: Mac, opens: seq<Opening>, lines: seq<string>) returns (k: nat)
    requires Setting(mac, opens, lines) && lines != [] && NoHeadLines(lines)
    requires forall j :: 0 <= j < |opens| ==> AllWritten(opens[j], |opens[j]|)
    ensures k < |opens| && |lines| <= |opens[k]|
    ensures forall i :: 0 <= i < |lines| ==> Authenticated(lines[i]) == Authenticated(ShownOf(mac, opens[k], i))
  {
    hide Setting, Authenticated, ShownOf, BodyOf, AllWritten;
    ChainIntegrity(mac, opens, lines);
    k :| 0 <= k < |opens| && FromOpening(mac, opens[k], lines);
    forall i | 0 <= i < |lines|
      ensures Authenticated(ShownOf(mac, opens[k], i)) == BodyOf(mac, opens[k], i)
    {
      ShownIsBody(mac, opens, lines, k, i);
    }
  }

  /** Every honest log is such a setting, so the theorem speaks of all of them. */
  lemma HonestSetting(mac: Mac, o: Opening, n: nat)
    requires n <= |o| && AllWritten(o, n) && Wellformed([o]) && CollisionFree(mac, [o])
    ensures Setting(mac, [o], Lines(Text(mac, o, n)))
  {
    hide Body, Shown, LinkOk, Authenticated, Recorded, Prev, GoodEvent, Clean, CollisionFree, Text, Lines;
    TextReadsBack(mac, o, n);
    forall i | 0 <= i < n
      ensures Clean(o[i].ev) && Maced(mac, [o], Authenticated(ShownOf(mac, o, i)))
    {
      WellformedAt([o], 0, i);
      HonestLink(mac, i + 1, o[i].ev, Prev(mac, o, i));
      assert Tagged([o][0][i]) && Authenticated(ShownOf(mac, o, i)) == BodyOf(mac, [o][0], i);
    }
    HonestLogAccepted(mac, o, n);
  }

  // -------------------------------------------- the head's text as a line

  function HeadLineSegs(mac: Mac, prev: Tag, n: nat): seq<string> {
    [INIT, "hmac", ":", Hex(mac(INIT)), "seq", ":" + Dec(n), "prev_hmac", ":", Hex(prev), "}"]
  }

  /** A line whose authenticated part is the head's text. The other two fields
      stand behind the tag, where nothing covers them. */
  function HeadLine(mac: Mac, prev: Tag, n: nat): string { Join(HeadLineSegs(mac, prev, n)) }

  lemma HeadLineTags(mac: Mac, prev: Tag, n: nat)
    ensures Recorded(HeadLine(mac, prev, n)) == Some(mac(INIT))
    ensures Authenticated(HeadLine(mac, prev, n)) == INIT
    ensures PrevField(HeadLine(mac, prev, n)) == Some(prev)
  {
    hide Join, UnhexAt, StrStr, Hex, Dec, Field;
    var s := HeadLineSegs(mac, prev, n);
    HeadLineSafe(mac, prev, n);
    assert !Hit(s, "prev_hmac", 1) && !Hit(s, "prev_hmac", 4) && !Hit(s, "prev_hmac", 5) by {
      assert s[1][0] == 'h' && s[4][0] == 's' && s[5][0] == ':';
    }
    assert !Hit(s, "prev_hmac", 2) && !Hit(s, "prev_hmac", 3) by {
      assert s[2][0] == ':' && s[4][0] == 's';
    }
    ReadsTag(s, "hmac", 1, mac(INIT));
    ReadsTag(s, "prev_hmac", 6, prev);
    FieldShape("hmac");
    FieldShape("prev_hmac");
    JoinSplit(s, 1);
    OneSegment(s[..1]);
  }

  lemma OneSegment(s: seq<string>)
    requires |s| == 1
    ensures Join(s) == s[0]
  {
  }

  lemma HeadLineAllSafe(mac: Mac, prev: Tag, n: nat)
    ensures AllSafe(HeadLineSegs(mac, prev, n))
  {
    HexSafe(mac(INIT));
    HexSafe(prev);
    DecIntSafe(n);
    assert Safe(":" + Dec(n)) by {
      assert forall i :: 0 <= i < |":" + Dec(n)| ==> (":" + Dec(n))[i] == (":" + DecInt(n) + ",")[i];
    }
    assert AllSafe(HeadLineSegs(mac, prev, n));
  }

  lemma HeadLineSafe(mac: Mac, prev: Tag, n: nat)
    ensures QuoteFree(HeadLineSegs(mac, prev, n))
  {
    HeadLineAllSafe(mac, prev, n);
    SafeLacks(HeadLineSegs(mac, prev, n), '"');
  }

  lemma HeadLineSeq(mac: Mac, prev: Tag, n: nat)
    requires n < U64
    ensures SeqField(HeadLine(mac, prev, n)) == Some(n)
  {
    hide Hex, Dec, StrToUll, StrStr;
    var s, l, x := HeadLineSegs(mac, prev, n), HeadLine(mac, prev, n), Hex(mac(INIT));
    JoinThree(s);
    JoinThree(s[3..]);
    var back := "\"" + Join(s[6..]);
    assert s[3..][3..] == s[6..];
    var front := INIT + "\"hmac\":\"" + x;
    assert l == front + ("\"seq\":" + (Dec(n) + back)) by {
      HeadLineText(x, Dec(n), Join(s[6..]));
    }
    assert OccursAt(l, "\"seq\":", |front|);
    HexSafe(mac(INIT));
    forall i | 0 <= i < |front|
      ensures !OccursAt(l, "\"seq\":", i)
    {
      NoSeqHere(mac(INIT), l, i);
    }
    StrStrLands(l, "\"seq\":", |front|);
    assert l[|front| + 6..] == Dec(n) + back;
    StrToUllOfDec(n, back);
  }

  lemma HeadLineText(x: string, d: string, j: string)
    ensures INIT + "\"" + ("hmac" + "\"" + (":" + "\"" + (x + "\"" + ("seq" + "\"" + ((":" + d) + "\"" + j)))))
         == (INIT + "\"hmac\":\"" + x) + ("\"seq\":" + (d + ("\"" + j)))
  {
  }

  lemma NoSeqHere(tag: Tag, l: string, i: nat)
    requires (INIT + "\"hmac\":\"") + Hex(tag) + "\"" <= l && i < 21 + 8 + 64
    ensures !OccursAt(l, "\"seq\":", i)
  {
    hide Hex;
    HexSafe(tag);
    var head := INIT + "\"hmac\":\"";
    assert |head| == 29;
    assert forall j :: 0 <= j < 29 ==> l[j] == head[j];
    assert forall j :: 29 <= j < 93 ==> l[j] == Hex(tag)[j - 29];
    if OccursAt(l, "\"seq\":", i) {
      assert l[i] == l[i..i + 6][0] == '"' && l[i + 1] == l[i..i + 6][1] == 's';
      HexDigitNotS(tag);
      assert false;
    }
  }

  lemma HexDigitNotS(tag: Tag)
    ensures forall j :: 0 <= j < 64 ==> Hex(tag)[j] != 's'
  {
    forall j | 0 <= j < 64
      ensures Hex(tag)[j] != 's'
    {
      HexDigitAt(tag, j);
    }
  }

  lemma HeadLineLinks(mac: Mac, prev: Tag, n: nat)
    requires n < U64
    ensures LinkOk(mac, HeadLine(mac, prev, n), n, prev)
  {
    hide HeadLine, Authenticated, Recorded, PrevField, SeqField;
    HeadLineTags(mac, prev, n);
    HeadLineSeq(mac, prev, n);
    assert n % U64 == n;
  }

  /** Why the condition of `ChainIntegrity` is there: behind any accepted lines,
      one more line holding the head's text is accepted too, and then the file
      is not the beginning of any opening. */
  lemma HeadLineAccepted(mac: Mac, lines: seq<string>)
    requires LinksTo(mac, lines, |lines|) && |lines| + 1 < U64
    ensures var longer := lines + [HeadLine(mac, Expected(mac, lines, |lines|), |lines| + 1)];
            LinksTo(mac, longer, |longer|) && !NoHeadLines(longer)
  {
    hide HeadLine, Authenticated, LinkOk, Expected, LinksTo;
    var n, prev := |lines| + 1, Expected(mac, lines, |lines|);
    var last := HeadLine(mac, prev, n);
    var longer := lines + [last];
    HeadLineTags(mac, prev, n);
    HeadLineLinks(mac, prev, n);
    assert longer[|lines|] == last && Authenticated(last) == INIT;
    LinksKept(mac, lines, last);
    LinksOneMore(mac, longer, |lines|);
  }

  lemma LinksKept(mac: Mac, lines: seq<string>, x: string)
    requires LinksTo(mac, lines, |lines|)
    ensures LinksTo(mac, lines + [x], |lines|)
    ensures Expected(mac, lines + [x], |lines|) == Expected(mac, lines, |lines|)
  {
    hide LinkOk, Authenticated;
    forall i | 0 <= i < |lines|
      ensures LinkOk(mac, (lines + [x])[i], i + 1, Expected(mac, lines + [x], i))
    {
      assert Expected(mac, lines + [x], i) == Expected(mac, lines, i);
    }
  }

  lemma HeadLineReadsBack(mac: Mac, prev: Tag, n: nat)
    requires n < U64
    ensures Lines(HeadLine(mac, prev, n) + "\n") == [HeadLine(mac, prev, n)]
  {
    hide HeadLineSegs, Chunks;
    var line := HeadLine(mac, prev, n);
    HeadLineChars(mac, prev, n);
    HeadLineWidth(mac, prev, n);
    var text := line + "\n";
    assert text + "" == text && text[..|text| - 1] == line;
    ChunksOfLine(text, "", READ_CAP);
    NoChunks();
    assert NUL !in text;
    assert Seen(text) == line;
  }

  lemma NoChunks()
    ensures Chunks("", READ_CAP) == []
  {
  }

  lemma HeadLineChars(mac: Mac, prev: Tag, n: nat)
    ensures '\n' !in HeadLine(mac, prev, n) && NUL !in HeadLine(mac, prev, n)
  {
    hide Hex, Dec, Join;
    HeadLineAllSafe(mac, prev, n);
    var s := HeadLineSegs(mac, prev, n);
    SafeLacks(s, '\n');
    SafeLacks(s, NUL);
    JoinHas(s, '\n');
    JoinHas(s, NUL);
  }

  lemma HeadLineWidth(mac: Mac, prev: Tag, n: nat)
    requires n < U64
    ensures |HeadLine(mac, prev, n)| < READ_CAP - 1
  {
    hide Hex, Dec;
    var s := HeadLineSegs(mac, prev, n);
    assert |Dec(n)| <= 20 by {
      Pow10Values();
      DecWidth(n, 20);
    }
    assert forall k :: 0 <= k < |s| ==> |s[k]| <= 64;
    JoinLength(s);
    JoinLenBound(s, 64);
  }

  /** The same of whole files: behind any accepted file that ends in a newline, that
      line makes an accepted file which is the beginning of no opening. */
  lemma HeadLineFileAccepted(mac: Mac, file: string)
    requires Accepted(mac, file) && (file == "" || file[|file| - 1] == '\n') && |Lines(file)| + 1 < U64
    ensures var n := |Lines(file)|;
            var longer := file + (HeadLine(mac, Expected(mac, Lines(file), n), n + 1) + "\n");
            Accepted(mac, longer) && |Lines(longer)| == n + 1 && !NoHeadLines(Lines(longer))
  {
    hide HeadLine, Authenticated, LinkOk, Expected, LinksTo, Lines;
    var lines := Lines(file);
    var line := HeadLine(mac, Expected(mac, lines, |lines|), |lines| + 1);
    HeadLineAccepted(mac, lines);
    HeadLineReadsBack(mac, Expected(mac, lines, |lines|), |lines| + 1);
    LinesConcat(file, line + "\n");
  }
}
