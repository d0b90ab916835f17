/** Why a request is refused (service/fhsm_service.c:1136-1313): every reason stands
    for a fault in the bytes, the first one met, and every such fault is refused. */
module HttpRefusals {
  import opened CText
  import opened HttpRequest
  import opened HttpHeaders
  import opened HttpPrinted

  // --------------------------------------------------- why headers are refused

  /** What is wrong with a line that follows headers in good order. */
  ghost predicate Wrong(done: seq<Item>, line: string, why: Reason) {
    if |done| >= 32 then why == HeaderCount
    else if ':' !in line then why == HeaderLineBad
    else if NameWrong(line) then why == HeaderNameBad
    else exists i :: Split(i) && line == Text(i) && Mistaken(done, i, why)
  }

  predicate NameWrong(line: string) {
    exists n :: 0 <= n < |line| && line[n] == ':' && ':' !in line[..n] && !(1 <= n <= 64)
  }

  ghost predicate Mistaken(done: seq<Item>, i: Item, why: Reason) {
    if Printable(i.value) then Breaks(done, i, why) else why == HeaderValueBad
  }

  lemma ColonIsFirst(line: string)
    ensures MemChr(line, ':') < 0 <==> ':' !in line
    ensures MemChr(line, ':') >= 0 ==> (NameWrong(line) <==> !(1 <= MemChr(line, ':') <= 64))
  {
    var c := MemChr(line, ':');
    if c >= 0 {
      forall n | 0 <= n < |line| && line[n] == ':' && ':' !in line[..n]
        ensures n == c
      {
      }
    }
  }

  /** A line in place is refused for what is wrong with it, and for nothing else. */
  lemma LineRefusedIff(done: seq<Item>, f: Fields, line: string, why: Reason)
    requires Limits(done) && Says(done, f)
    ensures Wrong(done, line, why) <==>
            if |done| >= 32 then why == HeaderCount else HeaderStep(f, line) == Refused(why)
  {
    hide Within, Says, MemChr, NameWrong, Split, Text, Absorb, Breaks, Printable, TrimLeft, TrimRight;
    ColonIsFirst(line);
    if |done| < 32 && 1 <= MemChr(line, ':') <= 64 {
      var j := LineSplits(line);
      TextIsRead(j);
      RefusedIff(done, f, j, why);
      forall i | Split(i) && line == Text(i)
        ensures Mistaken(done, i, why) <==> Mistaken(done, j, why)
      {
        TextIsRead(i);
        RefusedIff(done, f, i, why);
      }
    }
  }

  /** Headers that keep the limits, then a line that is wrong. */
  ghost predicate WrongAfter(lines: seq<string>, good: seq<Item>, why: Reason) {
    |good| < |lines| && Texts(good) == lines[..|good|] && Limits(good) && Wrong(good, lines[|good|], why)
  }

  /** Header lines are refused with a reason if and only if the first line that does
      not follow on is wrong in that way. */
  lemma HeadersRefusedIff(lines: seq<string>, why: Reason)
    ensures Headers(lines, 0, NO_FIELDS) == Refused(why) <==> exists good :: WrongAfter(lines, good, why)
  {
    hide Within, Says, Headers, WrongAfter, Texts;
    NothingSaid();
    if Headers(lines, 0, NO_FIELDS) == Refused(why) {
      assert lines[0..] == lines && lines[..0] == [] == Texts([]) by { NoTexts(); }
      var good := FirstWrong(lines, [], NO_FIELDS, why);
    }
    forall good | WrongAfter(lines, good, why)
      ensures Headers(lines, 0, NO_FIELDS) == Refused(why)
    {
      WrongIsRefused(lines, good, why);
    }
  }

  lemma WrongIsRefused(lines: seq<string>, good: seq<Item>, why: Reason)
    requires WrongAfter(lines, good, why)
    ensures Headers(lines, 0, NO_FIELDS) == Refused(why)
  {
    hide Within, Says, Headers, Wrong, Texts, HeaderStep;
    NothingSaid();
    var n := |good|;
    var rest := [lines[n]] + lines[n + 1..];
    WithinGood(good);
    assert [] + good == good;
    HeadersRead([], NO_FIELDS, good);
    var g := Headers(Texts(good), 0, NO_FIELDS).value;
    assert lines == lines[..n] + rest;
    HeadersAppend(lines[..n], rest, 0, NO_FIELDS);
    LineRefusedIff(good, g, lines[n], why);
    RefusedHere(rest, n, g, why);
  }

  lemma NoTexts()
    ensures Texts([]) == []
  {
  }

  lemma RefusedHere(lines: seq<string>, count: nat, f: Fields, why: Reason)
    requires lines != []
    requires if count >= 32 then why == HeaderCount else HeaderStep(f, lines[0]) == Refused(why)
    ensures Headers(lines, count, f) == Refused(why)
  {
  }

  lemma {:induction false} HeadersAppend(a: seq<string>, b: seq<string>, count: nat, f: Fields)
    requires Headers(a, count, f).Ok?
    ensures Headers(a + b, count, f) == Headers(b, count + |a|, Headers(a, count, f).value)
    decreases |a|
  {
    hide HeaderStep;
    if a == [] {
      assert a + b == b;
    } else {
      assert (a + b)[1..] == a[1..] + b;
      HeadersAppend(a[1..], b, count + 1, HeaderStep(f, a[0]).value);
    }
  }

  lemma {:induction false} TextsSnoc(items: seq<Item>, i: Item)
    ensures Texts(items + [i]) == Texts(items) + [Text(i)]
  {
    hide Text;
    if items == [] {
      assert items + [i] == [i] && [i][1..] == [];
    } else {
      assert (items + [i])[1..] == items[1..] + [i];
      TextsSnoc(items[1..], i);
    }
  }

  lemma {:induction false} FirstWrong(lines: seq<string>, done: seq<Item>, f: Fields, why: Reason)
    returns (good: seq<Item>)
    requires |done| <= |lines| && Texts(done) == lines[..|done|] && Limits(done) && Says(done, f)
    requires Headers(lines[|done|..], |done|, f) == Refused(why)
    ensures WrongAfter(lines, good, why)
    decreases |lines| - |done|
  {
    hide Within, Says, Wrong, Texts, HeaderStep;
    var n := |done|;
    var line, rest := lines[n], lines[n..];
    assert rest[0] == line && rest[1..] == lines[n + 1..];
    LineRefusedIff(done, f, line, why);
    if n >= 32 || HeaderStep(f, line).Refused? {
      good := done;
    } else {
      var i := AcceptedLine(f, line);
      StepRead(done, f, i);
      TextsSnoc(done, i);
      assert lines[..n + 1] == lines[..n] + [line];
      good := FirstWrong(lines, done + [i], HeaderStep(f, line).value, why);
    }
  }

  lemma AcceptedLine(f: Fields, line: string) returns (i: Item)
    requires HeaderStep(f, line).Ok?
    ensures Good(i) && line == Text(i)
  {
    hide Absorb, Split, Text, MemChr;
    i := LineSplits(line);
    TextIsRead(i);
  }

  // --------------------------------------------------- why requests are refused

  /** What is wrong with a request line: its words in order, a single space apart. */
  ghost predicate TopWrong(line: string, why: Reason) {
    if |line| > 1024 || ' ' !in line then why == RequestLineBad
    else exists m, rest :: ' ' !in m && line == m + " " + rest && WordsWrong(m, rest, why)
  }

  ghost predicate WordsWrong(m: string, rest: string, why: Reason) {
    if !Method(m) then why == MethodBad
    else if ' ' !in rest then why == RequestLineBad
    else TailWrong(rest, why)
  }

  ghost predicate TailWrong(rest: string, why: Reason) {
    exists t, v :: ' ' !in t && rest == t + " " + v && TargetWrong(t, v, why)
  }

  predicate TargetWrong(t: string, v: string, why: Reason) {
    if !Target(t) then why == TargetBad else v != "HTTP/1.1" && why == VersionBad
  }

  /** A line has one first word. */
  lemma FirstWord(line: string)
    ensures MemChr(line, ' ') < 0 <==> ' ' !in line
    ensures var k := MemChr(line, ' '); k >= 0 ==> ' ' !in line[..k] && line == line[..k] + " " + line[k + 1..]
  {
  }

  lemma TopRefusedIff(line: string, why: Reason)
    ensures RequestLine(line) == Refused(why) <==> TopWrong(line, why)
  {
    hide MemChr, WordsWrong, Words;
    FirstWord(line);
    var k := MemChr(line, ' ');
    if |line| <= 1024 && k >= 0 {
      LineByWords(line);
      var m, rest := line[..k], line[k + 1..];
      WordsRefusedIff(m, rest, why);
      forall a, b | ' ' !in a && line == a + " " + b && WordsWrong(a, b, why)
        ensures WordsWrong(m, rest, why)
      {
        SpaceAfter(a, b, line);
      }
    }
  }

  /** The reading of a request line behind its first word. */
  function Words(m: string, rest: string): Result<(string, string)> {
    var k := MemChr(rest, ' ');
    if m != "GET" && m != "POST" then Refused(MethodBad)
    else if k < 0 then Refused(RequestLineBad)
    else if !TargetOk(rest[..k]) then Refused(TargetBad)
    else if rest[k + 1..] != VERSION then Refused(VersionBad)
    else Ok((m, rest[..k]))
  }

  lemma LineByWords(line: string)
    requires |line| <= 1024 && MemChr(line, ' ') >= 0
    ensures var k := MemChr(line, ' '); RequestLine(line) == Words(line[..k], line[k + 1..])
  {
    hide MemChr, TargetOk;
  }

  lemma WordsRefusedIff(m: string, rest: string, why: Reason)
    ensures Words(m, rest) == Refused(why) <==> WordsWrong(m, rest, why)
  {
    hide MemChr, TargetOk, TargetWrong, TailWrong;
    FirstWord(rest);
    var k := MemChr(rest, ' ');
    if k >= 0 {
      var t, v := rest[..k], rest[k + 1..];
      TargetRefusedIff(t, v, why);
      OneTarget(rest, t, v, why);
    }
  }

  lemma TargetRefusedIff(t: string, v: string, why: Reason)
    ensures TargetWrong(t, v, why) <==> if !TargetOk(t) then why == TargetBad else v != VERSION && why == VersionBad
  {
    SameTarget(t);
  }

  lemma OneTarget(rest: string, t: string, v: string, why: Reason)
    requires ' ' !in t && rest == t + " " + v
    ensures TargetWrong(t, v, why) <==> TailWrong(rest, why)
  {
    hide MemChr, TargetWrong;
    SpaceAfter(t, v, rest);
    forall a, b | ' ' !in a && rest == a + " " + b
      ensures a == t && b == v
    {
      SpaceAfter(a, b, rest);
    }
  }

  lemma SameTarget(t: string)
    ensures TargetOk(t) <==> Target(t)
  {
  }

  /** What is wrong with a head, line by line: the first fault in reading order, and
      a transfer coding only where nothing else is. */
  ghost predicate HeadWrong(lines: seq<string>, why: Reason) {
    if lines == [] then why == RequestLineBad
    else
      || TopWrong(lines[0], why)
      || (TopGood(lines[0])
          && ((exists good :: WrongAfter(lines[1..], good, why))
              || (why == TransferEncoding && exists items :: Coded(lines[1..], items))))
  }

  ghost predicate TopGood(line: string) {
    |line| <= 1024 && exists m, t :: Method(m) && Target(t) && line == TopLine(m, t)
  }

  ghost predicate Coded(lines: seq<string>, items: seq<Item>) {
    lines == Texts(items) && Limits(items) && Values(items, TRANSFER_ENCODING) != []
  }

  lemma TopGoodIff(line: string)
    ensures RequestLine(line).Ok? <==> TopGood(line)
  {
    hide RequestLine, Target;
    if RequestLine(line).Ok? {
      var m, t := RequestLine(line).value.0, RequestLine(line).value.1;
      RequestLineIff(line, m, t);
      TopLineIff(m, t);
      assert line == TopLine(m, t);
    }
    forall m, t | |line| <= 1024 && Method(m) && Target(t) && line == TopLine(m, t)
      ensures RequestLine(line).Ok?
    {
      TopLineIff(m, t);
      RequestLineIff(line, m, t);
    }
  }

  lemma CodedIff(lines: seq<string>)
    ensures (exists items :: Coded(lines, items)) <==>
            Headers(lines, 0, NO_FIELDS).Ok? && Headers(lines, 0, NO_FIELDS).value.coded
  {
    hide Headers, Within, Says, Texts, Values;
    NothingSaid();
    var r := Headers(lines, 0, NO_FIELDS);
    if r.Ok? {
      HeadersIff(lines, r.value);
      var items :| lines == Texts(items) && Limits(items) && Says(items, r.value);
      SaysCoding(items, r.value);
      assert r.value.coded ==> Coded(lines, items);
    }
    forall items | Coded(lines, items)
      ensures r.Ok? && r.value.coded
    {
      WithinGood(items);
      assert [] + items == items;
      HeadersRead([], NO_FIELDS, items);
      SaysCoding(items, r.value);
    }
  }

  lemma HeadRefusedIff(head: string, why: Reason)
    ensures ParseHead(head) == Refused(why) <==> HeadWrong(Lines(head), why)
  {
    hide Lines, RequestLine, Headers, TopWrong, TopGood, WrongAfter, Coded;
    var lines := Lines(head);
    if lines != [] {
      TopRefusedIff(lines[0], why);
      TopGoodIff(lines[0]);
      HeadersRefusedIff(lines[1..], why);
      CodedIff(lines[1..]);
    }
  }

  /** No blank line in what the string functions see of the header buffer. */
  ghost predicate NoBlankLine(stream: string) {
    forall k :: OccursAt(stream, BLANK_LINE, k) && k + 4 <= 8192 ==> NUL in stream[..k + 4]
  }

  lemma {:induction false} SeenUpTo(s: string, n: nat)
    requires n <= |s|
    ensures n <= |CString(s)| <==> NUL !in s[..n]
  {
    if n > 0 {
      assert s[..n] == [s[0]] + s[1..][..n - 1];
      if s[0] != NUL {
        SeenUpTo(s[1..], n - 1);
      }
    }
  }

  lemma EndlessIff(stream: string)
    ensures HeadEnd(stream) < 0 <==> NoBlankLine(stream)
  {
    hide StrStr, CString, OccursAt;
    var c := CString(Buffered(stream));
    forall k | OccursAt(stream, BLANK_LINE, k) && k + 4 <= 8192
      ensures 0 <= k <= |stream| - 4 && (NUL !in stream[..k + 4] <==> OccursAt(c, BLANK_LINE, k))
    {
      InRange(stream, k);
      SeenThere(stream, k);
    }
    var e := StrStr(c, BLANK_LINE);
    if e >= 0 {
      InRange(c, e);
      SameThere(c, stream, e);
    }
  }

  lemma SeenThere(stream: string, k: nat)
    requires OccursAt(stream, BLANK_LINE, k) && k + 4 <= 8192
    ensures NUL !in stream[..k + 4] <==> OccursAt(CString(Buffered(stream)), BLANK_LINE, k)
  {
    hide CString, OccursAt;
    var b := Buffered(stream);
    var c := CString(b);
    InRange(stream, k);
    assert b[..k + 4] == stream[..k + 4];
    SeenUpTo(b, k + 4);
    if k + 4 <= |c| {
      SameThere(c, stream, k);
    } else if OccursAt(c, BLANK_LINE, k) {
      InRange(c, k);
    }
  }

  lemma InRange(s: string, k: int)
    requires OccursAt(s, BLANK_LINE, k)
    ensures 0 <= k <= |s| - 4
  {
  }

  lemma SameThere(a: string, b: string, k: nat)
    requires a <= b && k + 4 <= |a|
    ensures OccursAt(a, BLANK_LINE, k) <==> OccursAt(b, BLANK_LINE, k)
  {
    assert a[k..k + 4] == b[k..k + 4];
  }

  /** Why a stream is refused: no head in it, a head that is wrong, or a head in good
      order with fewer bytes behind it than it declares. */
  ghost predicate StreamWrong(stream: string, why: Reason) {
    if NoBlankLine(stream) then why == if |stream| < 8192 then ClosedEarly else HeadersTooLarge
    else exists head, rest :: HeadFirst(stream, head, rest) && HeadOrBodyWrong(head, rest, why)
  }

  /** The stream up to its first blank line, and what follows that. */
  ghost predicate HeadFirst(stream: string, head: string, rest: string) {
    && stream == head + CRLF + rest && |head| >= 2 && head[|head| - 2..] == CRLF
    && forall k :: OccursAt(stream, BLANK_LINE, k) ==> k >= |head| - 2
  }

  ghost predicate HeadOrBodyWrong(head: string, rest: string, why: Reason) {
    || HeadWrong(Lines(head), why)
    || (why == BodyShort && exists m, t, items, f :: Prints(head, m, t, items, f) && |rest| < Declared(f))
  }

  lemma HeadFirstIs(stream: string, head: string, rest: string)
    requires HeadEnd(stream) >= 0
    ensures HeadFirst(stream, head, rest) <==>
            head == stream[..HeadEnd(stream) + 2] && rest == stream[HeadEnd(stream) + 4..]
  {
    hide StrStr, CString, OccursAt;
    var end, c := HeadEnd(stream), CString(Buffered(stream));
    InRange(c, end);
    SameThere(c, stream, end);
    HeadShape(stream);
    if HeadFirst(stream, head, rest) {
      BlankAtCut(head, rest);
      SameThereIfShort(c, stream, |head| - 2, end);
      assert |head| == end + 2;
      assert stream[..end + 2] == head && stream[end + 4..] == rest;
    }
    if head == stream[..end + 2] && rest == stream[end + 4..] {
      assert stream == head + CRLF + rest;
      forall k | OccursAt(stream, BLANK_LINE, k)
        ensures k >= |head| - 2
      {
        InRange(stream, k);
        SameThereIfShort(c, stream, k, end);
      }
    }
  }

  lemma BlankAtCut(head: string, rest: string)
    requires |head| >= 2 && head[|head| - 2..] == CRLF
    ensures OccursAt(head + CRLF + rest, BLANK_LINE, |head| - 2)
  {
    var s := head + CRLF + rest;
    assert s[|head| - 2..|head| + 2] == head[|head| - 2..] + CRLF == BLANK_LINE;
  }

  lemma SameThereIfShort(c: string, s: string, k: nat, end: nat)
    requires c <= s && StrStr(c, BLANK_LINE) == end && OccursAt(s, BLANK_LINE, k)
    ensures k >= end
  {
    hide StrStr, OccursAt;
    InRange(c, end);
    if k < end {
      SameThere(c, s, k);
    }
  }

  /** Every refusal has its reason, and every reason its refusal. */
  lemma ParseRefusedIff(stream: string, why: Reason)
    ensures Parse(stream) == Refused(why) <==> StreamWrong(stream, why)
  {
    hide HeadEnd, ParseHead, HeadFirst, HeadWrong, NoBlankLine, Prints, Lines;
    EndlessIff(stream);
    var end := HeadEnd(stream);
    if end >= 0 {
      var head, rest := stream[..end + 2], stream[end + 4..];
      HeadFirstIs(stream, head, rest);
      forall h, r | HeadFirst(stream, h, r)
        ensures h == head && r == rest
      {
        HeadFirstIs(stream, h, r);
      }
      HeadRefusedIff(head, why);
      HeadShape(stream);
      BodyShortIff(head, |rest|);
    }
  }

  lemma BodyShortIff(head: string, have: nat)
    requires |head| >= 2 && head[|head| - 2..] == CRLF
    ensures (exists m, t, items, f :: Prints(head, m, t, items, f) && have < Declared(f)) <==>
            ParseHead(head).Ok? && have < BodyLength(ParseHead(head).value.fields)
  {
    hide Prints, ParseHead;
    HeadHasNoBody(head);
    if ParseHead(head).Ok? {
      var q := ParseHead(head).value;
      var items := HeadPrints(head, q.method_, q.target, q.fields);
    }
    forall m, t, items, f | Prints(head, m, t, items, f)
      ensures ParseHead(head) == Ok(Request(m, t, f, ""))
    {
      PrintedIsRead(head, m, t, items, f);
    }
  }
}
