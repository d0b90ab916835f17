/** What a request is (service/fhsm_service.c:138-143, 1010-1019, 1027-1313), as
    one pure reading of the whole byte stream, one character per byte. */
module HttpRequest {
  import opened CText

  const MAX_HEADER_BYTES: nat := 8192
  const MAX_REQUEST_LINE: nat := 1024
  const MAX_HEADERS: nat := 32
  const MAX_TARGET: nat := 256
  const MAX_BODY: nat := 65536
  const MAX_KEY_LABEL: nat := 64
  const MAX_SUBJECT: nat := 128

  const CRLF := "\r\n"
  const BLANK_LINE := "\r\n\r\n"
  const VERSION := "HTTP/1.1"
  const IDENT_HEADER := "x-fhsm-client-subject"
  const KEY_HEADER := "x-fhsm-key"
  const SIGLEN_HEADER := "x-fhsm-signature-length"
  const LENGTH_HEADER := "content-length"
  const CODING_HEADER := "transfer-encoding"

  datatype Reason =
    | ClosedEarly | HeadersTooLarge | RequestLineBad | MethodBad | TargetBad | VersionBad | HeaderLineBad
    | HeaderCount | HeaderNameBad | HeaderValueBad | SubjectLength | SignatureLengthBad | KeyLength
    | ContentLengthBad | BodyTooLarge | TransferEncoding | BodyShort

  datatype Result<+T> = Ok(value: T) | Refused(reason: Reason)

  /** What the header lines contribute. */
  datatype Fields = Fields(subject: Option<string>, subjectRepeated: bool, key: Option<string>, keyRepeated: bool,
                           siglen: Option<nat>, siglenRepeated: bool, contentLength: Option<nat>, coded: bool)

  const NO_FIELDS := Fields(None, false, None, false, None, false, None, false)

  datatype Request = Request(method_: string, target: string, fields: Fields, body: string)

  // -------------------------------------------------------------------- pieces

  /** `memchr`: the first place of `c`, or -1. */
  function MemChr(s: string, c: char): (i: int)
    ensures i == -1 || 0 <= i < |s|
    ensures i >= 0 ==> s[i] == c && c !in s[..i]
    ensures i < 0 ==> c !in s
  {
    if s == "" then -1
    else if s[0] == c then 0
    else var i := MemChr(s[1..], c); if i < 0 then -1 else i + 1
  }

  predicate Visible(c: char) { 0x21 <= c as int <= 0x7e }

  predicate Blank(c: char) { c == ' ' || c == '\t' }

  predicate Plain(c: char) { c as int >= 0x20 && c as int != 0x7f }

  function TrimLeft(s: string): (r: string)
    ensures r == "" || !Blank(r[0])
  {
    if s != "" && Blank(s[0]) then TrimLeft(s[1..]) else s
  }

  function TrimRight(s: string): (r: string)
    ensures r <= s && (r == "" || !Blank(r[|r| - 1]))
  {
    if s != "" && Blank(s[|s| - 1]) then TrimRight(s[..|s| - 1]) else s
  }

  function LowerChar(c: char): char { if 'A' <= c <= 'Z' then c - 'A' + 'a' else c }

  function Lower(s: string): (r: string)
    ensures |r| == |s| && forall i :: 0 <= i < |s| ==> r[i] == LowerChar(s[i])
  {
    seq(|s|, i requires 0 <= i < |s| => LowerChar(s[i]))
  }

  // -------------------------------------------------------------- request line

  function RequestLine(line: string): (r: Result<(string, string)>) {
    var sp1 := MemChr(line, ' ');
    if |line| > MAX_REQUEST_LINE || sp1 < 0 then Refused(RequestLineBad)
    else if line[..sp1] != "GET" && line[..sp1] != "POST" then Refused(MethodBad)
    else
      var rest := line[sp1 + 1..];
      var sp2 := MemChr(rest, ' ');
      if sp2 < 0 then Refused(RequestLineBad)
      else if !TargetOk(rest[..sp2]) then Refused(TargetBad)
      else if rest[sp2 + 1..] != VERSION then Refused(VersionBad)
      else Ok((line[..sp1], rest[..sp2]))
  }

  predicate TargetOk(t: string) {
    0 < |t| < MAX_TARGET && t[0] == '/' && forall c :: c in t ==> Visible(c)
  }

  // ------------------------------------------------------------------- headers

  function Header(line: string): (r: Result<(string, string)>) {
    var colon := MemChr(line, ':');
    if colon < 0 then Refused(HeaderLineBad)
    else if colon == 0 || colon > 64 then Refused(HeaderNameBad)
    else
      var value := TrimRight(TrimLeft(line[colon + 1..]));
      if |value| > 256 || exists c :: c in value && !Plain(c) then Refused(HeaderValueBad)
      else Ok((line[..colon], value))
  }

  /** A content length: one to nine digits, at most `MAX_BODY`. */
  function LengthOf(value: string): (r: Result<nat>) {
    if !(1 <= |value| <= 9) || !AllDigits(value) then Refused(ContentLengthBad)
    else if LeadingValue(value) > MAX_BODY then Refused(BodyTooLarge)
    else Ok(LeadingValue(value))
  }

  /** A signature length, as `strtol` reads it: an optional plus sign, then digits
      only. A minus sign leaves nothing positive, and a number too wide for a
      `long` is too large anyway. */
  function SignatureLengthOf(value: string): (r: Result<nat>) {
    var digits := if value != "" && value[0] == '+' then value[1..] else value;
    if |value| >= 32 || digits == "" || !AllDigits(digits) then Refused(SignatureLengthBad)
    else
      var n := LeadingValue(digits);
      if n == 0 || n > MAX_BODY then Refused(SignatureLengthBad) else Ok(n)
  }

  function Absorb(f: Fields, name: string, value: string): (r: Result<Fields>) {
    var id := Lower(name);
    if id == IDENT_HEADER then
      if f.subject.Some? then Ok(f.(subjectRepeated := true))
      else if value == "" || |value| >= MAX_SUBJECT then Refused(SubjectLength)
      else Ok(f.(subject := Some(value)))
    else if id == SIGLEN_HEADER then
      match SignatureLengthOf(value)
      case Refused(why) => Refused(why)
      case Ok(n) => Ok(f.(siglen := Some(n), siglenRepeated := f.siglenRepeated || f.siglen.Some?))
    else if id == KEY_HEADER then
      if f.key.Some? then Ok(f.(keyRepeated := true))
      else if value == "" || |value| >= MAX_KEY_LABEL then Refused(KeyLength)
      else Ok(f.(key := Some(value)))
    else if id == LENGTH_HEADER then
      if f.contentLength.Some? then Refused(ContentLengthBad)
      else match LengthOf(value)
        case Refused(why) => Refused(why)
        case Ok(n) => Ok(f.(contentLength := Some(n)))
    else if id == CODING_HEADER then Ok(f.(coded := true))
    else Ok(f)
  }

  function HeaderStep(f: Fields, line: string): (r: Result<Fields>) {
    match Header(line)
    case Refused(why) => Refused(why)
    case Ok((name, value)) => Absorb(f, name, value)
  }

  /** The header lines in order, of which `count` came before. */
  function Headers(lines: seq<string>, count: nat, f: Fields): (r: Result<Fields>) {
    if lines == [] then Ok(f)
    else if count >= MAX_HEADERS then Refused(HeaderCount)
    else match HeaderStep(f, lines[0])
      case Refused(why) => Refused(why)
      case Ok(g) => Headers(lines[1..], count + 1, g)
  }

  // --------------------------------------------------------------- the request

  /** Lines, each ended by CRLF. */
  function Lines(text: string): (r: seq<string>) {
    var eol := StrStr(text, CRLF);
    if eol < 0 then [] else [text[..eol]] + Lines(text[eol + 2..])
  }

  /** Where the blank line that ends the head begins, or -1: string search does not
      look past a NUL, nor past the header buffer. */
  function HeadEnd(stream: string): (end: int)
    ensures end == -1 || 0 <= end <= |stream| - 4
  {
    StrStr(CString(Buffered(stream)), BLANK_LINE)
  }

  function Buffered(stream: string): (r: string)
    ensures r <= stream && |r| <= MAX_HEADER_BYTES
  {
    if |stream| <= MAX_HEADER_BYTES then stream else stream[..MAX_HEADER_BYTES]
  }

  function ParseHead(head: string): (r: Result<Request>) {
    var lines := Lines(head);
    if lines == [] then Refused(RequestLineBad)
    else match RequestLine(lines[0])
      case Refused(why) => Refused(why)
      case Ok((m, t)) =>
        match Headers(lines[1..], 0, NO_FIELDS)
        case Refused(why) => Refused(why)
        case Ok(f) => if f.coded then Refused(TransferEncoding) else Ok(Request(m, t, f, ""))
  }

  function BodyLength(f: Fields): nat { if f.contentLength.Some? then f.contentLength.value else 0 }

  /** The request at the front of a byte stream, or why it is refused. */
  function Parse(stream: string): (r: Result<Request>) {
    var end := HeadEnd(stream);
    if end < 0 then Refused(if |stream| < MAX_HEADER_BYTES then ClosedEarly else HeadersTooLarge)
    else
      match ParseHead(stream[..end + 2])
      case Refused(why) => Refused(why)
      case Ok(q) =>
        var from, n := end + 4, BodyLength(q.fields);
        if |stream| < from + n then Refused(BodyShort) else Ok(q.(body := stream[from..from + n]))
  }

  // -------------------------------------------------------- what parsing means

  function Unlines(lines: seq<string>): string {
    if lines == [] then "" else lines[0] + CRLF + Unlines(lines[1..])
  }

  /** `Lines` undoes `Unlines` on lines without a CRLF of their own ... */
  lemma {:induction false} LinesOfUnlines(lines: seq<string>)
    requires forall l :: l in lines ==> StrStr(l + "\r", CRLF) < 0
    ensures Lines(Unlines(lines)) == lines
  {
    hide StrStr;
    if lines != [] {
      LinesOfUnlines(lines[1..]);
      LinesOfLine(lines[0], Unlines(lines[1..]));
    } else {
      assert StrStr("", CRLF) == -1;
    }
  }

  lemma LinesOfLine(l: string, rest: string)
    requires StrStr(l + "\r", CRLF) < 0
    ensures Lines(l + CRLF + rest) == [l] + Lines(rest)
  {
    hide StrStr;
    FirstLine(l, rest);
    var t := l + CRLF + rest;
    assert t[..|l|] == l;
    assert t[|l| + 2..] == rest;
  }

  lemma FirstLine(l: string, rest: string)
    requires StrStr(l + "\r", CRLF) < 0
    ensures StrStr(l + CRLF + rest, CRLF) == |l|
  {
    var t := l + CRLF + rest;
    assert t[|l|..|l| + 2] == CRLF;
    forall i | 0 <= i < |l|
      ensures !OccursAt(t, CRLF, i)
    {
      assert t[i..i + 2] == (l + "\r")[i..i + 2];
      assert !OccursAt(l + "\r", CRLF, i);
    }
    StrStrLands(t, CRLF, |l|);
  }

  /** ... and splits a text that ends in CRLF without loss. */
  lemma {:induction false} UnlinesOfLines(text: string)
    requires text == "" || (|text| >= 2 && text[|text| - 2..] == CRLF)
    ensures Unlines(Lines(text)) == text
    ensures text != "" ==> Lines(text) != []
  {
    hide StrStr;
    if text != "" {
      assert OccursAt(text, CRLF, |text| - 2);
      var eol := StrStr(text, CRLF);
      if eol + 2 < |text| {
        SuffixCrlf(text, eol);
      }
      UnlinesOfLines(text[eol + 2..]);
      CutAtLine(text, eol);
    } else {
      assert !OccursAt(text, CRLF, StrStr(text, CRLF));
    }
  }

  lemma CutAtLine(text: string, eol: nat)
    requires OccursAt(text, CRLF, eol)
    ensures text == text[..eol] + CRLF + text[eol + 2..]
  {
  }

  lemma SuffixCrlf(text: string, eol: nat)
    requires |text| >= 2 && text[|text| - 2..] == CRLF && OccursAt(text, CRLF, eol) && eol + 2 < |text|
    ensures |text| - (eol + 2) >= 2 && text[eol + 2..][|text| - (eol + 2) - 2..] == CRLF
  {
    assert text[eol + 1] == text[eol..eol + 2][1] == '\n';
    assert text[|text| - 2] == text[|text| - 2..][0] == '\r';
  }

  predicate LineShape(line: string, m: string, t: string, v: string) {
    && |line| <= MAX_REQUEST_LINE && (m == "GET" || m == "POST") && TargetOk(t)
    && line == m + " " + (t + " " + v)
  }

  /** A request line is accepted if and only if it is one of the two methods, a
      visible target and the one version, a single space apart. */
  lemma RequestLineIff(line: string, m: string, t: string)
    ensures RequestLine(line) == Ok((m, t)) <==> LineShape(line, m, t, VERSION)
  {
    if LineShape(line, m, t, VERSION) {
      ShapeAccepted(line, m, t);
    } else if RequestLine(line) == Ok((m, t)) {
      AcceptedShape(line, m, t);
    }
  }

  lemma ShapeAccepted(line: string, m: string, t: string)
    requires LineShape(line, m, t, VERSION)
    ensures RequestLine(line) == Ok((m, t))
  {
    hide TargetOk, MemChr;
    assert ' ' !in m;
    SpaceAfter(m, t + " " + VERSION, line);
    assert ' ' !in t by { TargetHasNoSpace(t); }
    SpaceAfter(t, VERSION, t + " " + VERSION);
  }

  lemma TargetHasNoSpace(t: string)
    requires TargetOk(t)
    ensures ' ' !in t
  {
  }

  lemma AcceptedShape(line: string, m: string, t: string)
    requires RequestLine(line) == Ok((m, t))
    ensures LineShape(line, m, t, VERSION)
  {
    hide TargetOk, MemChr;
    var sp1 := MemChr(line, ' ');
    var rest := line[sp1 + 1..];
    var sp2 := MemChr(rest, ' ');
    assert rest == t + " " + VERSION;
    assert line == m + " " + rest;
  }

  lemma SpaceAfter(a: string, b: string, line: string)
    requires ' ' !in a && line == a + " " + b
    ensures MemChr(line, ' ') == |a| && line[..|a|] == a && line[|a| + 1..] == b
  {
    assert line[|a|] == ' ';
    assert forall i :: 0 <= i < |a| ==> line[i] == a[i];
  }

  // ------------------------------------------------------------------- framing

  predicate Named(line: string, id: string) { Header(line).Ok? && Lower(Header(line).value.0) == id }

  predicate NoneNamed(lines: seq<string>, id: string) { forall i :: 0 <= i < |lines| ==> !Named(lines[i], id) }

  /** Line `k` is the only one of that name. */
  predicate OnlyNamed(lines: seq<string>, id: string, k: nat) {
    && k < |lines| && Named(lines[k], id)
    && forall i :: 0 <= i < |lines| && Named(lines[i], id) ==> i == k
  }

  function ValueAt(lines: seq<string>, k: nat): string {
    if k < |lines| && Header(lines[k]).Ok? then Header(lines[k]).value.1 else ""
  }

  lemma NamedTail(lines: seq<string>, id: string)
    requires lines != []
    ensures NoneNamed(lines, id) <==> !Named(lines[0], id) && NoneNamed(lines[1..], id)
    ensures Named(lines[0], id) && NoneNamed(lines[1..], id) ==> OnlyNamed(lines, id, 0)
    ensures forall k: nat :: !Named(lines[0], id) && OnlyNamed(lines[1..], id, k) ==>
                             OnlyNamed(lines, id, k + 1) && ValueAt(lines, k + 1) == ValueAt(lines[1..], k)
  {
    forall i | 0 < i < |lines|
      ensures lines[i] == lines[1..][i - 1]
    {
    }
    hide Named;
    assert NoneNamed(lines[1..], id) ==> forall i :: 1 <= i < |lines| ==> !Named(lines[i], id);
    if NoneNamed(lines, id) {
      assert forall i :: 0 <= i < |lines[1..]| ==> lines[1..][i] == lines[i + 1];
    }
  }

  /** The one value of a name that may be given once: absent, or on exactly one line. */
  ghost predicate Sole(lines: seq<string>, id: string, v: Option<string>) {
    match v
    case None => NoneNamed(lines, id)
    case Some(x) => exists k: nat :: OnlyNamed(lines, id, k) && ValueAt(lines, k) == x
  }

  /** The same where a value may have been given before these lines. */
  ghost predicate SoleFrom(lines: seq<string>, id: string, before: Option<string>, v: Option<string>) {
    if before.None? then Sole(lines, id, v) else v == before && NoneNamed(lines, id)
  }

  lemma SoleTail(lines: seq<string>, id: string, v: Option<string>)
    requires lines != [] && !Named(lines[0], id) && Sole(lines[1..], id, v)
    ensures Sole(lines, id, v)
  {
    NamedTail(lines, id);
    hide Named, OnlyNamed, NoneNamed, ValueAt;
    if v.Some? {
      var k: nat :| OnlyNamed(lines[1..], id, k) && ValueAt(lines[1..], k) == v.value;
      assert OnlyNamed(lines, id, k + 1);
    }
  }

  lemma SoleHead(lines: seq<string>, id: string)
    requires lines != [] && Named(lines[0], id) && NoneNamed(lines[1..], id)
    ensures Sole(lines, id, Some(ValueAt(lines, 0)))
  {
    NamedTail(lines, id);
    assert OnlyNamed(lines, id, 0);
  }

  /** What one header line may do to the fields. */
  lemma AbsorbEffect(f: Fields, line: string)
    requires HeaderStep(f, line).Ok?
    ensures var g := HeaderStep(f, line).value; var v := ValueAt([line], 0);
            && (g.subject == if f.subject.None? && Named(line, IDENT_HEADER) then Some(v) else f.subject)
            && (g.subjectRepeated <==> f.subjectRepeated || (f.subject.Some? && Named(line, IDENT_HEADER)))
            && (g.key == if f.key.None? && Named(line, KEY_HEADER) then Some(v) else f.key)
            && (g.keyRepeated <==> f.keyRepeated || (f.key.Some? && Named(line, KEY_HEADER)))
            && (g.coded <==> f.coded || Named(line, CODING_HEADER))
            && (Named(line, LENGTH_HEADER) ==>
                  f.contentLength.None? && LengthOf(v).Ok? && g.contentLength == Some(LengthOf(v).value))
            && (!Named(line, LENGTH_HEADER) ==> g.contentLength == f.contentLength)
  {
    hide Lower, LengthOf, SignatureLengthOf, Header;
    DistinctNames();
  }

  lemma DistinctNames()
    ensures |IDENT_HEADER| == 21 && |SIGLEN_HEADER| == 23 && |KEY_HEADER| == 10
    ensures |LENGTH_HEADER| == 14 && |CODING_HEADER| == 17
  {
  }

  /** Whoever the accepted head names, it names once: with no repetition flagged the
      subject, and the key, stand on exactly one line, and a name absent from the
      fields is absent from the lines. */
  lemma {:induction false} NamesAreSole(lines: seq<string>, count: nat, f: Fields)
    requires Headers(lines, count, f).Ok?
    ensures var g := Headers(lines, count, f).value;
            && (!g.subjectRepeated ==>
                  !f.subjectRepeated && SoleFrom(lines, IDENT_HEADER, f.subject, g.subject))
            && (!g.keyRepeated ==>
                  !f.keyRepeated && SoleFrom(lines, KEY_HEADER, f.key, g.key))
    decreases |lines|
  {
    hide Named, HeaderStep, Sole, OnlyNamed;
    if lines == [] {
      assert Sole(lines, IDENT_HEADER, None) && Sole(lines, KEY_HEADER, None) by { NothingSole(); }
    } else {
      AbsorbEffect(f, lines[0]);
      var g := HeaderStep(f, lines[0]).value;
      NamesAreSole(lines[1..], count + 1, g);
      assert ValueAt(lines, 0) == ValueAt([lines[0]], 0);
      var r := Headers(lines, count, f).value;
      if !r.subjectRepeated {
        SoleStep(lines, IDENT_HEADER, f.subject, r.subject);
      }
      if !r.keyRepeated {
        SoleStep(lines, KEY_HEADER, f.key, r.key);
      }
    }
  }

  lemma NothingSole()
    ensures forall id :: Sole([], id, None)
  {
  }

  /** One line in front: the name is given there, there or later, or not at all. */
  lemma SoleStep(lines: seq<string>, id: string, before: Option<string>, v: Option<string>)
    requires lines != [] && (before.Some? ==> !Named(lines[0], id))
    requires SoleFrom(lines[1..], id, if Named(lines[0], id) then Some(ValueAt(lines, 0)) else before, v)
    ensures SoleFrom(lines, id, before, v)
  {
    hide Sole, Named, ValueAt;
    NamedTail(lines, id);
    if Named(lines[0], id) {
      SoleHead(lines, id);
    } else if before.None? {
      SoleTail(lines, id, v);
    }
  }

  /** Exactly one line gives the length, and it is `n`. */
  ghost predicate Declares(lines: seq<string>, n: nat) {
    exists k: nat :: OnlyNamed(lines, LENGTH_HEADER, k) && LengthOf(ValueAt(lines, k)) == Ok(n)
  }

  /** An accepted head frames its body one way: the length stands on exactly one
      line or none, and a transfer coding on none unless flagged. */
  lemma {:induction false} FramedOnce(lines: seq<string>, count: nat, f: Fields)
    requires Headers(lines, count, f).Ok?
    ensures var g := Headers(lines, count, f).value;
            && (g.coded <==> f.coded || !NoneNamed(lines, CODING_HEADER))
            && (f.contentLength.Some? || g.contentLength.None? ==>
                  NoneNamed(lines, LENGTH_HEADER) && g.contentLength == f.contentLength)
            && (f.contentLength.None? && g.contentLength.Some? ==> Declares(lines, g.contentLength.value))
    decreases |lines|
  {
    hide Named, HeaderStep, OnlyNamed, LengthOf, ValueAt;
    if lines != [] {
      AbsorbEffect(f, lines[0]);
      var g := HeaderStep(f, lines[0]).value;
      FramedOnce(lines[1..], count + 1, g);
      NamedTail(lines, LENGTH_HEADER);
      NamedTail(lines, CODING_HEADER);
      assert ValueAt(lines, 0) == ValueAt([lines[0]], 0) by { FirstValue(lines); }
      var r := Headers(lines, count, f).value;
      if g.contentLength.None? && r.contentLength.Some? {
        var n := r.contentLength.value;
        var k: nat :| OnlyNamed(lines[1..], LENGTH_HEADER, k) && LengthOf(ValueAt(lines[1..], k)) == Ok(n);
        assert OnlyNamed(lines, LENGTH_HEADER, k + 1);
      } else if f.contentLength.None? && r.contentLength.Some? {
        assert OnlyNamed(lines, LENGTH_HEADER, 0);
      }
    }
  }

  lemma FirstValue(lines: seq<string>)
    requires lines != []
    ensures ValueAt(lines, 0) == ValueAt([lines[0]], 0)
  {
  }

  // ---------------------------------------------------------------- the stream

  lemma {:induction false} CStringGrows(a: string, b: string)
    ensures CString(a) <= CString(a + b)
  {
    if a == "" {
    } else if a[0] != NUL {
      assert (a + b)[1..] == a[1..] + b;
      CStringGrows(a[1..], b);
    }
  }

  /** More bytes behind it do not move the end of the head. */
  lemma HeadEndStays(a: string, b: string)
    requires HeadEnd(a) >= 0
    ensures HeadEnd(a + b) == HeadEnd(a)
  {
    var x, y := Buffered(a), Buffered(a + b);
    assert x <= y;
    assert y == x + y[|x|..];
    CStringGrows(x, y[|x|..]);
    var p, q := CString(x), CString(y);
    assert q == p + q[|p|..];
    StrStrPrefix(p, q[|p|..], BLANK_LINE);
  }

  /** A request that is accepted stays accepted, and the same, whatever follows it. */
  lemma FollowingBytesIgnored(stream: string, more: string)
    requires Parse(stream).Ok?
    ensures Parse(stream + more) == Parse(stream)
  {
    hide ParseHead, HeadEnd;
    var end := HeadEnd(stream);
    HeadEndStays(stream, more);
    assert (stream + more)[..end + 2] == stream[..end + 2];
    var from, n := end + 4, BodyLength(Parse(stream).value.fields);
    assert (stream + more)[from..from + n] == stream[from..from + n];
  }

  /** An accepted body is exactly the declared bytes after the first blank line. */
  lemma BodyIsExact(stream: string)
    requires Parse(stream).Ok?
    ensures var q, end := Parse(stream).value, HeadEnd(stream);
            && OccursAt(stream, BLANK_LINE, end) && end + 4 <= MAX_HEADER_BYTES
            && (forall i :: 0 <= i < end ==> !OccursAt(stream, BLANK_LINE, i))
            && |q.body| == BodyLength(q.fields) && OccursAt(stream, q.body, end + 4)
  {
    hide ParseHead;
    var end := HeadEnd(stream);
    var c := CString(Buffered(stream));
    assert c <= stream;
    assert c[end..end + 4] == stream[end..end + 4];
    forall i | 0 <= i < end
      ensures !OccursAt(stream, BLANK_LINE, i)
    {
      assert c[i..i + 4] == stream[i..i + 4];
      assert !OccursAt(c, BLANK_LINE, i);
    }
  }
}
