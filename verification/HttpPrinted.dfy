/** Reading a request is the inverse of printing one, in both directions
    (service/fhsm_service.c:138-143, 1136-1313). */
module HttpPrinted {
  import opened CText
  import opened HttpRequest
  import opened HttpHeaders

  // ----------------------------------------------------------------- the head

  /** A head: the request line, the headers, each line ended. */
  function Printed(m: string, t: string, items: seq<Item>): string {
    m + " " + t + " HTTP/1.1\r\n" + PrintedItems(items)
  }

  function PrintedItems(items: seq<Item>): string {
    if items == [] then "" else Text(items[0]) + "\r\n" + PrintedItems(items[1..])
  }

  /** No name has a line end in it: the one way a name could start a line. */
  predicate OneLineEach(items: seq<Item>) { forall i :: i in items ==> !HasCrlf(i.name) }

  predicate HasCrlf(s: string) { exists k :: 0 <= k < |s| - 1 && s[k] == '\r' && s[k + 1] == '\n' }

  predicate Target(t: string) {
    1 <= |t| <= 255 && t[0] == '/' && forall c :: c in t ==> 33 <= c as int <= 126
  }

  predicate Method(m: string) { m == "GET" || m == "POST" }

  /** A head printed from those parts, in good order, and saying `f`. */
  ghost predicate Prints(head: string, m: string, t: string, items: seq<Item>, f: Fields) {
    && head == Printed(m, t, items) && Method(m) && Target(t) && OneLineEach(items)
    && Limits(items) && Says(items, f) && Values(items, TRANSFER_ENCODING) == []
  }

  lemma {:induction false} ItemLines(items: seq<Item>)
    ensures PrintedItems(items) == Unlines(Texts(items))
  {
    hide Text;
    if items != [] {
      ItemLines(items[1..]);
      assert Texts(items)[0] == Text(items[0]) && Texts(items)[1..] == Texts(items[1..]);
    }
  }

  function TopLine(m: string, t: string): string { m + " " + (t + " " + VERSION) }

  lemma PrintedLines(m: string, t: string, items: seq<Item>)
    ensures Printed(m, t, items) == Unlines([TopLine(m, t)] + Texts(items))
  {
    hide Texts, PrintedItems;
    ItemLines(items);
    var lines := [TopLine(m, t)] + Texts(items);
    assert lines[1..] == Texts(items);
    assert m + " " + t + " HTTP/1.1\r\n" == TopLine(m, t) + CRLF;
  }

  lemma TopLineIff(m: string, t: string)
    ensures LineShape(TopLine(m, t), m, t, VERSION) <==> Method(m) && Target(t)
  {
  }

  // A line end inside a header line can only be inside its name.

  lemma TextHasNoEnd(i: Item)
    requires Good(i)
    ensures StrStr(Text(i) + "\r", CRLF) < 0 <==> !HasCrlf(i.name)
  {
    hide StrStr, OccursAt, Good, Text;
    var s, n := Text(i) + "\r", |i.name|;
    NameFirst(i);
    if HasCrlf(i.name) {
      var k :| 0 <= k < n - 1 && i.name[k] == '\r' && i.name[k + 1] == '\n';
      EndAt(s, k);
    }
    var k := StrStr(s, CRLF);
    EndAt(s, k);
    if k >= 0 && k + 1 > n {
      AfterName(i, k + 1);
    }
  }

  lemma NameFirst(i: Item)
    ensures var s, n := Text(i) + "\r", |i.name|;
            |s| > n + 1 && s[n] == ':' && forall k :: 0 <= k < n ==> s[k] == i.name[k]
  {
  }

  lemma AfterName(i: Item, k: nat)
    requires Good(i) && |i.name| < k <= |Text(i)|
    ensures (Text(i) + "\r")[k] != '\n'
  {
    var s, a := Text(i) + "\r", |i.name| + 1;
    var b := a + |i.left|;
    var c := b + |i.value|;
    if k < b {
      assert s[k] == i.left[k - a];
    } else if k < c {
      assert s[k] == i.value[k - b];
      assert i.value[k - b] in i.value;
    } else if k < |Text(i)| {
      assert s[k] == i.right[k - c];
    }
  }

  lemma EndAt(s: string, k: int)
    ensures OccursAt(s, CRLF, k) <==> 0 <= k < |s| - 1 && s[k] == '\r' && s[k + 1] == '\n'
  {
    if 0 <= k < |s| - 1 {
      assert s[k..k + 2] == [s[k], s[k + 1]];
    }
  }

  lemma CutHasNoEnd(text: string, eol: nat)
    requires StrStr(text, CRLF) == eol
    ensures StrStr(text[..eol] + "\r", CRLF) < 0
  {
    hide StrStr, OccursAt;
    EndAt(text, eol);
    var s := text[..eol] + "\r";
    forall k | OccursAt(s, CRLF, k)
      ensures OccursAt(text, CRLF, k) && k < eol
    {
      EndAt(s, k);
      EndAt(text, k);
    }
  }

  lemma {:induction false} LinesHaveNoEnd(text: string, l: string)
    requires l in Lines(text)
    ensures StrStr(l + "\r", CRLF) < 0
    decreases |text|
  {
    hide StrStr;
    var eol := StrStr(text, CRLF);
    if l == text[..eol] {
      CutHasNoEnd(text, eol);
    } else {
      LinesHaveNoEnd(text[eol + 2..], l);
    }
  }

  lemma TopLineHasNoEnd(m: string, t: string)
    requires Method(m) && Target(t)
    ensures StrStr(TopLine(m, t) + "\r", CRLF) < 0
  {
    hide StrStr, OccursAt;
    var s := TopLine(m, t) + "\r";
    assert '\n' !in m && '\n' !in t && '\n' !in VERSION;
    assert '\n' !in s;
    EndAt(s, StrStr(s, CRLF));
  }

  lemma {:induction false} TextsMembers(items: seq<Item>)
    ensures |Texts(items)| == |items|
    ensures forall k :: 0 <= k < |items| ==> Texts(items)[k] == Text(items[k])
  {
    hide Text;
    if items != [] {
      TextsMembers(items[1..]);
    }
  }

  /** A head is accepted, giving a method, a target and fields, if and only if it is
      printed from that method, that target and headers that say those fields. */
  lemma HeadIff(head: string, m: string, t: string, f: Fields)
    requires |head| >= 2 && head[|head| - 2..] == CRLF
    ensures ParseHead(head) == Ok(Request(m, t, f, "")) <==> exists items :: Prints(head, m, t, items, f)
  {
    hide Prints, ParseHead;
    if ParseHead(head) == Ok(Request(m, t, f, "")) {
      var items := HeadPrints(head, m, t, f);
    }
    forall items | Prints(head, m, t, items, f)
      ensures ParseHead(head) == Ok(Request(m, t, f, ""))
    {
      PrintedIsRead(head, m, t, items, f);
    }
  }

  lemma HeadPrints(head: string, m: string, t: string, f: Fields) returns (items: seq<Item>)
    requires |head| >= 2 && head[|head| - 2..] == CRLF
    requires ParseHead(head) == Ok(Request(m, t, f, ""))
    ensures Prints(head, m, t, items, f)
  {
    hide Lines, RequestLine, Headers, Within, Says, Texts, Printed, Target, LineShape;
    var lines := Lines(head);
    UnlinesOfLines(head);
    RequestLineIff(lines[0], m, t);
    HeadersIff(lines[1..], f);
    items :| lines[1..] == Texts(items) && Limits(items) && Says(items, f);
    assert lines[0] == TopLine(m, t) by { ShapeIsTop(lines[0], m, t); }
    TopLineIff(m, t);
    assert lines == [TopLine(m, t)] + Texts(items);
    PrintedLines(m, t, items);
    assert Values(items, TRANSFER_ENCODING) == [] by { SaysCoding(items, f); }
    EachOneLine(head, items);
  }

  lemma ShapeIsTop(line: string, m: string, t: string)
    requires LineShape(line, m, t, VERSION)
    ensures line == TopLine(m, t)
  {
  }

  lemma SaysCoding(items: seq<Item>, f: Fields)
    requires Says(items, f)
    ensures f.coded <==> Values(items, TRANSFER_ENCODING) != []
  {
  }

  lemma EachOneLine(head: string, items: seq<Item>)
    requires Lines(head) != [] && Lines(head)[1..] == Texts(items) && Within(items)
    ensures OneLineEach(items)
  {
    hide Lines, Text, HasCrlf, Texts, Within;
    WithinGood(items);
    TextsMembers(items);
    forall i | i in items
      ensures !HasCrlf(i.name)
    {
      var k :| 0 <= k < |items| && items[k] == i;
      assert Lines(head)[1..][k] == Text(i);
      assert Text(i) in Lines(head);
      LinesHaveNoEnd(head, Text(i));
      TextHasNoEnd(i);
    }
  }

  lemma LinesFree(m: string, t: string, items: seq<Item>)
    requires Method(m) && Target(t) && OneLineEach(items) && Within(items)
    ensures forall l :: l in [TopLine(m, t)] + Texts(items) ==> Whole(l)
  {
    hide StrStr, Target, HasCrlf, Texts, Within, TopLine, Text;
    WithinGood(items);
    TextsMembers(items);
    forall l | l in [TopLine(m, t)] + Texts(items)
      ensures Whole(l)
    {
      if l == TopLine(m, t) {
        TopLineHasNoEnd(m, t);
        NotEmpty(m, t, Item("", "", "", ""));
      } else {
        var k :| 0 <= k < |items| && Texts(items)[k] == l;
        assert items[k] in items;
        TextHasNoEnd(items[k]);
        NotEmpty(m, t, items[k]);
      }
    }
  }

  lemma NotEmpty(m: string, t: string, i: Item)
    ensures TopLine(m, t) != "" && Text(i) != ""
  {
  }

  lemma PrintedIsRead(head: string, m: string, t: string, items: seq<Item>, f: Fields)
    requires Prints(head, m, t, items, f)
    ensures ParseHead(head) == Ok(Request(m, t, f, ""))
  {
    hide StrStr, Lines, RequestLine, Headers, Within, Says, Texts, Printed, Target, LineShape, OneLineEach, TopLine;
    var lines := [TopLine(m, t)] + Texts(items);
    PrintedLines(m, t, items);
    LinesFree(m, t, items);
    LinesOfUnlines(lines);
    TopLineIff(m, t);
    RequestLineIff(TopLine(m, t), m, t);
    HeadersIff(Texts(items), f);
    assert lines[1..] == Texts(items);
    SaysCoding(items, f);
  }

  // --------------------------------------------------------------- the stream

  /** Lines that are not empty hold no blank line before the one that follows them. */
  lemma {:induction false} FirstBlank(lines: seq<string>, rest: string)
    requires lines != [] && forall l :: l in lines ==> Whole(l)
    ensures |Unlines(lines)| >= 2 && StrStr(Unlines(lines) + CRLF + rest, BLANK_LINE) == |Unlines(lines)| - 2
    decreases |lines|
  {
    hide StrStr, OccursAt, Whole, Unlines;
    var l, ls := lines[0], lines[1..];
    assert l in lines;
    if ls == [] {
      OneLine(lines, rest);
      BlankHere(l, rest);
    } else {
      assert forall k :: k in ls ==> k in lines;
      FirstBlank(ls, rest);
      UnlinesFront(lines, rest);
      assert ls[0] in lines;
      StartsOtherwise(ls, rest);
      BlankLater(l, Unlines(ls) + CRLF + rest);
    }
  }

  /** A line that is not empty and has no line end in it. */
  predicate Whole(l: string) { l != "" && StrStr(l + "\r", CRLF) < 0 }

  lemma UnlinesFront(lines: seq<string>, rest: string)
    requires lines != []
    ensures |Unlines(lines)| == |lines[0]| + 2 + |Unlines(lines[1..])|
    ensures Unlines(lines) + CRLF + rest == lines[0] + CRLF + (Unlines(lines[1..]) + CRLF + rest)
  {
  }

  lemma OneLine(lines: seq<string>, rest: string)
    requires |lines| == 1
    ensures |Unlines(lines)| == |lines[0]| + 2
    ensures Unlines(lines) + CRLF + rest == lines[0] + CRLF + (CRLF + rest)
  {
    assert Unlines(lines[1..]) == "";
  }

  /** A text of lines that are not empty does not start with a line end. */
  lemma StartsOtherwise(lines: seq<string>, rest: string)
    requires lines != [] && Whole(lines[0])
    ensures !OccursAt(Unlines(lines) + CRLF + rest, CRLF, 0)
  {
    hide StrStr;
    var l := lines[0];
    var s, u := l + "\r", Unlines(lines) + CRLF + rest;
    assert u == l + CRLF + (Unlines(lines[1..]) + CRLF + rest);
    assert u[0] == s[0] && u[1] == s[1];
    assert s[0..2] == [s[0], s[1]] && u[0..2] == [u[0], u[1]];
    assert !OccursAt(s, CRLF, 0);
  }

  lemma BlankStartsWithEnd(s: string, k: int)
    requires OccursAt(s, BLANK_LINE, k)
    ensures OccursAt(s, CRLF, k) && OccursAt(s, CRLF, k + 2)
  {
    var w := s[k..k + 4];
    assert s[k..k + 2] == w[..2] && s[k + 2..k + 4] == w[2..];
  }

  lemma BlankHere(l: string, rest: string)
    requires Whole(l)
    ensures StrStr(l + CRLF + (CRLF + rest), BLANK_LINE) == |l|
  {
    hide StrStr, OccursAt;
    var s := l + CRLF + (CRLF + rest);
    FirstLine(l, CRLF + rest);
    assert OccursAt(s, BLANK_LINE, |l|) by { TwoEnds(l, rest); }
    forall k | 0 <= k < |l|
      ensures !OccursAt(s, BLANK_LINE, k)
    {
      if OccursAt(s, BLANK_LINE, k) {
        BlankStartsWithEnd(s, k);
      }
    }
    StrStrLands(s, BLANK_LINE, |l|);
  }

  lemma TwoEnds(l: string, rest: string)
    ensures OccursAt(l + CRLF + (CRLF + rest), BLANK_LINE, |l|)
  {
    var s := l + CRLF + (CRLF + rest);
    assert s[|l|..|l| + 4] == BLANK_LINE;
  }

  lemma BlankLater(l: string, x: string)
    requires Whole(l) && !OccursAt(x, CRLF, 0) && StrStr(x, BLANK_LINE) >= 0
    ensures StrStr(l + CRLF + x, BLANK_LINE) == |l| + 2 + StrStr(x, BLANK_LINE)
  {
    hide StrStr, OccursAt;
    var s, a, at := l + CRLF + x, |l| + 2, StrStr(x, BLANK_LINE);
    FirstLine(l, x);
    Shifted(l + CRLF, x, BLANK_LINE, at);
    forall k | 0 <= k < a + at
      ensures !OccursAt(s, BLANK_LINE, k)
    {
      if OccursAt(s, BLANK_LINE, k) {
        BlankStartsWithEnd(s, k);
        NotInEnd(l, x, k);
        if k < a {
          Shifted(l + CRLF, x, CRLF, 0);
        } else {
          Shifted(l + CRLF, x, BLANK_LINE, k - a);
        }
      }
    }
    StrStrLands(s, BLANK_LINE, a + at);
  }

  lemma NotInEnd(l: string, x: string, k: nat)
    requires OccursAt(l + CRLF + x, CRLF, k)
    ensures k != |l| + 1
  {
    var s := l + CRLF + x;
    assert s[k] == s[k..k + 2][0] == '\r';
    assert s[|l| + 1] == '\n';
  }

  lemma Shifted(a: string, b: string, pat: string, k: nat)
    ensures OccursAt(a + b, pat, |a| + k) <==> OccursAt(b, pat, k)
  {
    if k + |pat| <= |b| {
      assert (a + b)[|a| + k..|a| + k + |pat|] == b[k..k + |pat|];
    }
  }

  /** No string function stops inside the head. */
  lemma {:induction false} NoNulPrinted(items: seq<Item>)
    requires forall i :: i in items ==> Good(i) && NUL !in i.name
    ensures NUL !in PrintedItems(items)
  {
    if items != [] {
      var i := items[0];
      assert i in items;
      assert NUL !in i.left && NUL !in i.right && NUL !in i.value;
      assert NUL !in Text(i);
      NoNulPrinted(items[1..]);
    }
  }

  lemma {:induction false} NoNulNames(items: seq<Item>)
    requires NUL !in PrintedItems(items)
    ensures forall i :: i in items ==> NUL !in i.name
  {
    if items != [] {
      var i, p := items[0], PrintedItems(items);
      assert p == i.name + (":" + (i.left + i.value + i.right) + "\r\n" + PrintedItems(items[1..]));
      forall k | 0 <= k < |i.name|
        ensures i.name[k] != NUL
      {
        assert p[k] == i.name[k];
      }
      assert p == (Text(i) + "\r\n") + PrintedItems(items[1..]);
      NoNulNames(items[1..]);
    }
  }

  lemma NoNulHead(m: string, t: string, items: seq<Item>)
    requires Method(m) && Target(t) && Within(items) && forall i :: i in items ==> NUL !in i.name
    ensures NUL !in Printed(m, t, items) + CRLF
  {
    hide Within, PrintedItems;
    WithinGood(items);
    NoNulPrinted(items);
    assert NUL !in m && NUL !in t && NUL !in " HTTP/1.1\r\n" && NUL !in CRLF;
  }

  /** The head of a printed request ends where printing ended it. */
  lemma PrintedHeadEnds(m: string, t: string, items: seq<Item>, rest: string)
    requires Method(m) && Target(t) && OneLineEach(items) && Within(items)
    requires (forall i :: i in items ==> NUL !in i.name) && |Printed(m, t, items)| + 2 <= 8192
    ensures |Printed(m, t, items)| >= 2 && HeadEnd(Printed(m, t, items) + CRLF + rest) == |Printed(m, t, items)| - 2
  {
    hide StrStr, CString, Printed, Target, OneLineEach, Within, Texts, TopLine;
    var head := Printed(m, t, items) + CRLF;
    PrintedLines(m, t, items);
    LinesFree(m, t, items);
    FirstBlank([TopLine(m, t)] + Texts(items), "");
    assert head + "" == head;
    NoNulHead(m, t, items);
    assert Buffered(head) == head;
    HeadEndStays(head, rest);
  }

  /** How many body bytes were declared. */
  function Declared(f: Fields): nat { match f.contentLength case Some(n) => n case None => 0 }

  /** A stream that is a request printed from its parts, and then anything. */
  ghost predicate Carries(stream: string, q: Request, items: seq<Item>, more: string) {
    var head := Printed(q.method_, q.target, items);
    && Prints(head, q.method_, q.target, items, q.fields)
    && (forall i :: i in items ==> NUL !in i.name) && |head| + 2 <= 8192
    && |q.body| == Declared(q.fields) && stream == head + CRLF + (q.body + more)
  }

  /** Reading is the inverse of printing: a stream is read as a request if and only
      if it is that request, printed, with anything after it. */
  lemma ParseIff(stream: string, q: Request)
    ensures Parse(stream) == Ok(q) <==> exists items, more :: Carries(stream, q, items, more)
  {
    hide Carries, Parse;
    if Parse(stream) == Ok(q) {
      var items, more := ReadIsPrinted(stream, q);
    }
    forall items, more | Carries(stream, q, items, more)
      ensures Parse(stream) == Ok(q)
    {
      CarriedIsRead(stream, q, items, more);
    }
  }

  lemma CarriedIsRead(stream: string, q: Request, items: seq<Item>, more: string)
    requires Carries(stream, q, items, more)
    ensures Parse(stream) == Ok(q)
  {
    hide HeadEnd, ParseHead, Printed, Within, Says, Target, OneLineEach, Values;
    var head := Printed(q.method_, q.target, items);
    PrintedHeadEnds(q.method_, q.target, items, q.body + more);
    PrintedIsRead(head, q.method_, q.target, items, q.fields);
    assert stream[..|head|] == head;
    var from, n := |head| + 2, |q.body|;
    assert stream[from..from + n] == q.body;
  }

  lemma ReadIsPrinted(stream: string, q: Request) returns (items: seq<Item>, more: string)
    requires Parse(stream) == Ok(q)
    ensures Carries(stream, q, items, more)
  {
    hide HeadEnd, ParseHead, Printed, Prints;
    var end := HeadEnd(stream);
    var head, from := stream[..end + 2], end + 4;
    HeadShape(stream);
    HeadHasNoBody(head);
    items := HeadPrints(head, q.method_, q.target, q.fields);
    more := stream[from + |q.body|..];
    assert stream == head + CRLF + (q.body + more);
    PrintsNames(head, q, items);
  }

  lemma HeadHasNoBody(head: string)
    ensures ParseHead(head).Ok? ==> ParseHead(head).value.body == ""
  {
  }

  lemma HeadShape(stream: string)
    requires HeadEnd(stream) >= 0
    ensures var head := stream[..HeadEnd(stream) + 2];
            && head[|head| - 2..] == CRLF && NUL !in head && |head| + 2 <= 8192
            && stream[|head|..|head| + 2] == CRLF
  {
    hide StrStr, CString;
    var c, end := CString(Buffered(stream)), HeadEnd(stream);
    assert c <= stream && |c| <= 8192;
    var w := c[end..end + 4];
    assert w == BLANK_LINE;
    assert stream[end] == w[0] && stream[end + 1] == w[1] && stream[end + 2] == w[2] && stream[end + 3] == w[3];
    forall k | 0 <= k < end + 2
      ensures stream[k] != NUL
    {
      assert stream[k] == c[k];
    }
  }

  lemma PrintsNames(head: string, q: Request, items: seq<Item>)
    requires Prints(head, q.method_, q.target, items, q.fields) && NUL !in head
    ensures head == Printed(q.method_, q.target, items) && forall i :: i in items ==> NUL !in i.name
  {
    hide PrintedItems, Within, Says;
    var top, p := q.method_ + " " + q.target + " HTTP/1.1\r\n", PrintedItems(items);
    forall k | 0 <= k < |p|
      ensures p[k] != NUL
    {
      assert head[|top| + k] == p[k];
    }
    NoNulNames(items);
  }

  /** The request the service is for, whatever the letter case of the names and the
      blanks around the values: subject, key, signature length and body come out as
      they went in. */
  lemma RequestIsRead(m: string, t: string, subject: Item, key: Item, siglen: Item, length: Item, n: nat, body: string,
                      more: string)
    requires Method(m) && Target(t)
    requires forall i :: i in [subject, key, siglen, length] ==> Good(i)
    requires Is(subject, SUBJECT) && Is(key, KEY) && Is(siglen, SIGNATURE_LENGTH) && Is(length, CONTENT_LENGTH)
    requires 1 <= |subject.value| <= 127 && 1 <= |key.value| <= 63
    requires 1 <= n <= 65536 && siglen.value == Dec(n)
    requires |body| <= 65536 && length.value == Dec(|body|)
    requires |Printed(m, t, [subject, key, siglen, length])| + 2 <= 8192
    ensures var f := Fields(Some(subject.value), false, Some(key.value), false, Some(n), false, Some(|body|), false);
            Parse(Printed(m, t, [subject, key, siglen, length]) + CRLF + (body + more)) == Ok(Request(m, t, f, body))
  {
    var items := [subject, key, siglen, length];
    var f := Fields(Some(subject.value), false, Some(key.value), false, Some(n), false, Some(|body|), false);
    FourSay(subject, key, siglen, length, n, |body|);
    FourNames(subject, key, siglen, length);
    CarriedIsRead(Printed(m, t, items) + CRLF + (body + more), Request(m, t, f, body), items, more);
  }

  lemma PlainName(i: Item, id: string)
    requires Is(i, id) && forall c :: c in id ==> 33 <= c as int <= 126
    ensures NUL !in i.name && !HasCrlf(i.name)
  {
    forall k | 0 <= k < |i.name|
      ensures i.name[k] != NUL && i.name[k] != '\n'
    {
      assert id[k] in id;
    }
  }

  lemma FourNames(subject: Item, key: Item, siglen: Item, length: Item)
    requires Is(subject, SUBJECT) && Is(key, KEY) && Is(siglen, SIGNATURE_LENGTH) && Is(length, CONTENT_LENGTH)
    ensures OneLineEach([subject, key, siglen, length])
    ensures forall i :: i in [subject, key, siglen, length] ==> NUL !in i.name
  {
    hide Is, HasCrlf;
    PlainName(subject, SUBJECT);
    PlainName(key, KEY);
    PlainName(siglen, SIGNATURE_LENGTH);
    PlainName(length, CONTENT_LENGTH);
  }

  lemma ValuesOfFour(a: Item, b: Item, c: Item, d: Item, id: string)
    ensures Values([a, b, c, d], id) == (if Is(a, id) then [a.value] else []) + (if Is(b, id) then [b.value] else [])
                                        + (if Is(c, id) then [c.value] else []) + (if Is(d, id) then [d.value] else [])
  {
    hide Is, Values;
    assert Values([], id) == [] by { NoValues(id); }
    ValuesSnoc([], a, id);
    ValuesSnoc([a], b, id);
    ValuesSnoc([a, b], c, id);
    ValuesSnoc([a, b, c], d, id);
    assert [] + [a] == [a] && [a] + [b] == [a, b] && [a, b] + [c] == [a, b, c] && [a, b, c] + [d] == [a, b, c, d];
  }

  lemma NoValues(id: string)
    ensures Values([], id) == []
  {
  }

  lemma FourSay(subject: Item, key: Item, siglen: Item, length: Item, n: nat, bytes: nat)
    requires forall i :: i in [subject, key, siglen, length] ==> Good(i)
    requires Is(subject, SUBJECT) && Is(key, KEY) && Is(siglen, SIGNATURE_LENGTH) && Is(length, CONTENT_LENGTH)
    requires 1 <= |subject.value| <= 127 && 1 <= |key.value| <= 63
    requires 1 <= n <= 65536 && siglen.value == Dec(n)
    requires bytes <= 65536 && length.value == Dec(bytes)
    ensures var f := Fields(Some(subject.value), false, Some(key.value), false, Some(n), false, Some(bytes), false);
            var items := [subject, key, siglen, length];
            Limits(items) && Says(items, f) && Values(items, TRANSFER_ENCODING) == []
  {
    hide Is, Values, Good, Dec, SignatureIs, LengthIs;
    OneName(subject);
    OneName(key);
    OneName(siglen);
    OneName(length);
    ValuesOfFour(subject, key, siglen, length, SUBJECT);
    ValuesOfFour(subject, key, siglen, length, KEY);
    ValuesOfFour(subject, key, siglen, length, SIGNATURE_LENGTH);
    ValuesOfFour(subject, key, siglen, length, CONTENT_LENGTH);
    ValuesOfFour(subject, key, siglen, length, TRANSFER_ENCODING);
    assert SignatureIs(siglen.value, n) && LengthIs(length.value, bytes) by { SmallNumber(n); SmallNumber(bytes); }
  }

  lemma SmallNumber(n: nat)
    requires n <= 65536
    ensures LengthIs(Dec(n), n) && (n >= 1 ==> SignatureIs(Dec(n), n))
  {
    hide Dec;
    assert Dec(n) == Zeros(0) + Dec(n);
    assert Pow10(5) == 100000;
    DecWidth(n, 5);
  }
}
