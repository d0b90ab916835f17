/** The bounded request reader (service/fhsm_service.c:1136-1313), proved to give
    the pure reading of the stream however the reads split it. */
module RequestReader {
  import opened CText
  import opened HttpRequest

  /** The far end of a connection: `read` hands over what is there in pieces of a
      size nobody promises, and nothing only at the end of the stream. */
  class Peer {
    const data: string
    var pos: nat

    constructor (data: string)
      ensures this.data == data && pos == 0
    {
      this.data := data;
      pos := 0;
    }

    method Read(dst: array<char>, at: nat, room: nat) returns (n: nat)
      requires pos <= |data| && at + room <= dst.Length && room > 0
      modifies this, dst
      ensures n <= room && old(pos) + n == pos <= |data|
      ensures n == 0 ==> pos == |data|
      ensures forall k :: 0 <= k < at ==> dst[k] == old(dst[k])
      ensures forall k :: at <= k < at + n ==> dst[k] == data[old(pos) + k - at]
    {
      n := 0;
      if pos < |data| {
        n :| 1 <= n <= room && pos + n <= |data|;
        forall k | 0 <= k < n {
          dst[at + k] := data[pos + k];
        }
        pos := pos + n;
      }
    }
  }

  // --------------------------------------------------------------------- lines

  method NameEq(name: string, lower: string) returns (eq: bool)
    ensures eq <==> Lower(name) == lower
  {
    if |lower| != |name| {
      return false;
    }
    for i := 0 to |name|
      invariant forall j :: 0 <= j < i ==> Lower(name)[j] == lower[j]
    {
      var c := name[i];
      if 'A' <= c <= 'Z' {
        c := c - 'A' + 'a';
      }
      if c != lower[i] {
        return false;
      }
    }
    eq := true;
  }

  method CheckTarget(t: string) returns (ok: bool)
    ensures ok <==> TargetOk(t)
  {
    if |t| == 0 || |t| >= MAX_TARGET || t[0] != '/' {
      return false;
    }
    for i := 0 to |t|
      invariant forall c :: c in t[..i] ==> Visible(c)
    {
      if t[i] as int < 0x21 || t[i] as int > 0x7e {
        assert t[i] in t && !Visible(t[i]);
        return false;
      }
      assert t[..i + 1] == t[..i] + [t[i]];
    }
    assert t[..|t|] == t;
    ok := true;
  }

  method ReadRequestLine(line: string) returns (r: Result<(string, string)>)
    ensures r == RequestLine(line)
  {
    if |line| > MAX_REQUEST_LINE {
      return Refused(RequestLineBad);
    }
    var sp1 := MemChr(line, ' ');
    if sp1 < 0 {
      return Refused(RequestLineBad);
    }
    if line[..sp1] != "GET" && line[..sp1] != "POST" {
      return Refused(MethodBad);
    }
    var rest := line[sp1 + 1..];
    var sp2 := MemChr(rest, ' ');
    if sp2 < 0 {
      return Refused(RequestLineBad);
    }
    var ok := CheckTarget(rest[..sp2]);
    if !ok {
      return Refused(TargetBad);
    }
    if rest[sp2 + 1..] != VERSION {
      return Refused(VersionBad);
    }
    r := Ok((line[..sp1], rest[..sp2]));
  }

  /** The value of a header: blanks off both ends, by moving the two bounds. */
  method Trim(s: string) returns (value: string)
    ensures value == TrimRight(TrimLeft(s))
  {
    hide Blank;
    var v := 0;
    while v < |s| && Blank(s[v])
      invariant v <= |s| && TrimLeft(s[v..]) == TrimLeft(s)
    {
      assert s[v..][1..] == s[v + 1..];
      v := v + 1;
    }
    var len := |s| - v;
    var t := s[v..];
    assert t[..len] == t;
    while len > 0 && Blank(t[len - 1])
      invariant 0 <= len <= |t| && TrimRight(t[..len]) == TrimRight(t)
    {
      assert t[..len][..len - 1] == t[..len - 1];
      len := len - 1;
    }
    value := t[..len];
  }

  method ReadHeaderLine(line: string) returns (r: Result<(string, string)>)
    ensures r == Header(line)
  {
    hide TrimLeft, TrimRight, MemChr;
    var colon := MemChr(line, ':');
    if colon < 0 {
      return Refused(HeaderLineBad);
    }
    if colon == 0 || colon > 64 {
      return Refused(HeaderNameBad);
    }
    var value := Trim(line[colon + 1..]);
    if |value| > 256 {
      return Refused(HeaderValueBad);
    }
    for i := 0 to |value|
      invariant forall j :: 0 <= j < i ==> Plain(value[j])
    {
      if value[i] as int < 0x20 || value[i] as int == 0x7f {
        assert value[i] in value && !Plain(value[i]);
        return Refused(HeaderValueBad);
      }
    }
    r := Ok((line[..colon], value));
  }

  lemma {:induction false} OneMoreDigit(s: string, i: nat)
    requires i < |s| && AllDigits(s[..i]) && IsDigit(s[i])
    ensures AllDigits(s[..i + 1]) && LeadingValue(s[..i + 1]) == LeadingValue(s[..i]) * 10 + DigitVal(s[i])
  {
    assert s[..i + 1] == s[..i] + [s[i]];
    LeadingValueOfRun(s[..i], [s[i]], 0);
    var v := LeadingValue(s[..i]);
    assert LeadingValue([s[i]], v) == LeadingValue([s[i]][1..], v * 10 + DigitVal(s[i]));
  }

  method ReadLength(value: string) returns (r: Result<nat>)
    ensures r == LengthOf(value)
  {
    if |value| == 0 || |value| > 9 {
      return Refused(ContentLengthBad);
    }
    var cl := 0;
    for i := 0 to |value|
      invariant AllDigits(value[..i]) && cl == LeadingValue(value[..i])
    {
      if value[i] < '0' || value[i] > '9' {
        assert value[i] in value && !IsDigit(value[i]);
        return Refused(ContentLengthBad);
      }
      OneMoreDigit(value, i);
      cl := cl * 10 + (value[i] as int - '0' as int);
    }
    assert value[..|value|] == value;
    r := if cl > MAX_BODY then Refused(BodyTooLarge) else Ok(cl);
  }

  method ReadField(f: Fields, name: string, value: string) returns (r: Result<Fields>)
    ensures r == Absorb(f, name, value)
  {
    hide Lower, LengthOf, SignatureLengthOf;
    var ident := NameEq(name, IDENT_HEADER);
    if ident {
      if f.subject.Some? {
        return Ok(f.(subjectRepeated := true));
      }
      if |value| == 0 || |value| >= MAX_SUBJECT {
        return Refused(SubjectLength);
      }
      return Ok(f.(subject := Some(value)));
    }
    var siglen := NameEq(name, SIGLEN_HEADER);
    if siglen {
      var g := if f.siglen.Some? then f.(siglenRepeated := true) else f;
      match SignatureLengthOf(value) {
        case Refused(why) => return Refused(why);
        case Ok(n) => return Ok(g.(siglen := Some(n)));
      }
    }
    var key := NameEq(name, KEY_HEADER);
    if key {
      if f.key.Some? {
        return Ok(f.(keyRepeated := true));
      }
      if |value| == 0 || |value| >= MAX_KEY_LABEL {
        return Refused(KeyLength);
      }
      return Ok(f.(key := Some(value)));
    }
    var length := NameEq(name, LENGTH_HEADER);
    if length {
      if f.contentLength.Some? {
        return Refused(ContentLengthBad);
      }
      var n := ReadLength(value);
      return match n case Refused(why) => Refused(why) case Ok(cl) => Ok(f.(contentLength := Some(cl)));
    }
    var coding := NameEq(name, CODING_HEADER);
    r := Ok(if coding then f.(coded := true) else f);
  }

  // ---------------------------------------------------------------------- head

  /** Reads until the blank line, the end of the stream or a full buffer. */
  method ReadHead(peer: Peer, hdr: array<char>) returns (used: nat, end: int)
    requires peer.pos == 0 && hdr.Length == MAX_HEADER_BYTES + 1
    modifies peer, hdr
    ensures used == peer.pos <= |peer.data| && used <= MAX_HEADER_BYTES && hdr[..used] == peer.data[..used]
    ensures end == HeadEnd(peer.data)
    ensures end >= 0 ==> end == StrStr(CString(hdr[..used]), BLANK_LINE)
    ensures end < 0 ==> (used < MAX_HEADER_BYTES <==> |peer.data| < MAX_HEADER_BYTES)
  {
    hide StrStr, CString;
    used, end := 0, -1;
    ghost var data := peer.data;
    assert CString("") == "" && StrStr("", BLANK_LINE) == -1 by { NothingFound(); }
    while used < MAX_HEADER_BYTES
      invariant used == peer.pos <= |data| && used <= MAX_HEADER_BYTES && end == -1
      invariant forall k :: 0 <= k < used ==> hdr[k] == data[k]
      invariant StrStr(CString(data[..used]), BLANK_LINE) == -1
    {
      var n := peer.Read(hdr, used, MAX_HEADER_BYTES - used);
      assert hdr[..used + n] == data[..used + n];
      if n == 0 {
        assert hdr[..used] == data[..used];
        assert data[..used] == data == Buffered(data);
        return;
      }
      used := used + n;
      end := StrStr(CString(hdr[..used]), BLANK_LINE);
      if end >= 0 {
        assert Buffered(data[..used]) == data[..used];
        assert data == data[..used] + data[used..];
        HeadEndStays(data[..used], data[used..]);
        return;
      }
    }
    assert hdr[..used] == data[..used] == Buffered(data);
  }

  lemma NothingFound()
    ensures CString("") == "" && StrStr("", BLANK_LINE) == -1
  {
  }

  lemma {:induction false} CStringDrop(s: string, p: nat)
    requires p <= |CString(s)|
    ensures CString(s[p..]) == CString(s)[p..]
  {
    if p > 0 {
      CStringDrop(s[1..], p - 1);
      assert s[p..] == s[1..][p - 1..];
    } else {
      assert s[0..] == s && CString(s)[0..] == CString(s);
    }
  }

  /** At a line start in the head the search for CRLF finds the end of that line,
      and what follows is another line or the end of the head. */
  lemma NextLine(buf: string, end: nat, p: nat)
    requires StrStr(CString(buf), BLANK_LINE) == end && p <= end
    ensures var e := StrStr(CString(buf[p..]), CRLF);
            && 0 <= e && (p + e == end || p + e + 2 < end)
            && Lines(buf[p..end + 2]) == [buf[p..p + e]] + Lines(buf[p + e + 2..end + 2])
  {
    hide CString, StrStr, Lines;
    var c := CString(buf);
    CStringDrop(buf, p);
    LineEnd(c, end, p);
    var e, h := StrStr(c[p..], CRLF), buf[p..end + 2];
    PrefixSlice(c, buf, p, end + 2);
    LinesCut(h, e);
    HeadSlices(buf, p, end + 2, e);
  }

  lemma LinesCut(h: string, e: nat)
    requires StrStr(h, CRLF) == e
    ensures e + 2 <= |h| && Lines(h) == [h[..e]] + Lines(h[e + 2..])
  {
    hide StrStr;
  }

  lemma HeadSlices(buf: string, p: nat, q: nat, e: nat)
    requires p + e + 2 <= q <= |buf|
    ensures buf[p..q][..e] == buf[p..p + e] && buf[p..q][e + 2..] == buf[p + e + 2..q]
  {
    SliceOfSlice(buf, p, q, 0, e);
    SliceOfSlice(buf, p, q, e + 2, q - p);
  }

  lemma PrefixSlice(a: string, b: string, lo: nat, hi: nat)
    requires a <= b && lo <= hi <= |a|
    ensures a[lo..hi] == b[lo..hi]
  {
    assert forall k :: lo <= k < hi ==> a[k] == b[k];
  }

  lemma LineEnd(c: string, end: nat, p: nat)
    requires StrStr(c, BLANK_LINE) == end && p <= end
    ensures var e := StrStr(c[p..], CRLF); 0 <= e == StrStr(c[p..end + 2], CRLF) && (p + e == end || p + e + 2 < end)
  {
    hide StrStr;
    var h := c[p..end + 2];
    assert h[end - p] == c[end..end + 4][0] && h[end - p + 1] == c[end..end + 4][1];
    assert h[end - p..end - p + 2] == CRLF;
    assert OccursAt(h, CRLF, end - p);
    assert c[p..] == h + c[end + 2..];
    StrStrPrefix(h, c[end + 2..], CRLF);
    var e := StrStr(h, CRLF);
    assert c[p + e..p + e + 2] == h[e..e + 2];
    NoEarlierBlank(c, end, p + e);
  }

  lemma NoEarlierBlank(c: string, end: nat, k: nat)
    requires StrStr(c, BLANK_LINE) == end && k <= end && OccursAt(c, CRLF, k)
    ensures k == end || k + 2 < end
  {
    assert c[end] == c[end..end + 4][0] == '\r' && c[end + 1] == c[end..end + 4][1] == '\n';
    assert c[k] == c[k..k + 2][0] == '\r' && c[k + 1] == c[k..k + 2][1] == '\n';
    assert k + 2 == end ==> c[k..k + 4] == BLANK_LINE;
    assert k + 2 == end ==> OccursAt(c, BLANK_LINE, k);
  }

  lemma BodyFits(head: string)
    requires ParseHead(head).Ok?
    ensures BodyLength(ParseHead(head).value.fields) <= MAX_BODY
  {
    FramedOnce(Lines(head)[1..], 0, NO_FIELDS);
  }

  /** The request line and the header lines of a head that ends at `end`. */
  method ReadLines(buf: string, end: nat) returns (r: Result<Request>)
    requires StrStr(CString(buf), BLANK_LINE) == end
    ensures r == ParseHead(buf[..end + 2])
  {
    hide StrStr, CString, RequestLine, Header, Absorb, Lines;
    ghost var lines := Lines(buf[..end + 2]);
    assert buf[0..] == buf && buf[0..end + 2] == buf[..end + 2];
    NextLine(buf, end, 0);
    var eol := StrStr(CString(buf), CRLF);
    assert buf[0..eol] == buf[..eol] && lines[1..] == Lines(buf[eol + 2..end + 2]);
    var first := ReadRequestLine(buf[..eol]);
    if first.Refused? {
      return Refused(first.reason);
    }
    var p, count, f := eol + 2, 0, NO_FIELDS;
    while p < end
      invariant p < end || p == end + 2
      invariant Headers(lines[1..], 0, NO_FIELDS) == Headers(Lines(buf[p..end + 2]), count, f)
      decreases end + 2 - p
    {
      NextLine(buf, end, p);
      var e := StrStr(CString(buf[p..]), CRLF);    // never -1 here
      ghost var rest := Lines(buf[p + e + 2..end + 2]);
      assert ([buf[p..p + e]] + rest)[1..] == rest;
      count := count + 1;
      if count > MAX_HEADERS {
        return Refused(HeaderCount);
      }
      var h := ReadHeaderLine(buf[p..p + e]);
      if h.Refused? {
        return Refused(h.reason);
      }
      var g := ReadField(f, h.value.0, h.value.1);
      if g.Refused? {
        return Refused(g.reason);
      }
      f := g.value;
      p := p + e + 2;
    }
    assert Lines("") == [] by { NoLines(); }
    assert buf[end + 2..end + 2] == "";
    r := if f.coded then Refused(TransferEncoding) else Ok(Request(first.value.0, first.value.1, f, ""));
  }

  lemma NoLines()
    ensures Lines("") == []
  {
  }

  // ---------------------------------------------------------------------- body

  /** The body: what came with the head, then the rest, and no byte beyond. */
  method ReadBody(peer: Peer, hdr: array<char>, used: nat, from: nat, n: nat) returns (r: Result<string>)
    requires from <= used == peer.pos <= |peer.data| && n <= MAX_BODY
    requires used <= hdr.Length && hdr[..used] == peer.data[..used]
    modifies peer
    ensures r == if |peer.data| < from + n then Refused(BodyShort) else Ok(peer.data[from..from + n])
    ensures peer.pos <= |peer.data| && (peer.pos <= from + n || peer.pos == old(peer.pos))
  {
    var body := new char[MAX_BODY];
    var len := if used - from > n then n else used - from;
    ghost var data := peer.data;
    assert forall k :: 0 <= k < used ==> hdr[k] == hdr[..used][k] == data[k];
    forall k | 0 <= k < len {
      body[k] := hdr[from + k];
    }
    while len < n
      invariant len <= n && from + len <= |data|
      invariant forall k :: 0 <= k < len ==> body[k] == data[from + k]
      invariant len < n ==> peer.pos == from + len
      invariant peer.pos <= |data| && (peer.pos <= from + n || peer.pos == old(peer.pos))
    {
      var got := peer.Read(body, len, n - len);
      if got == 0 {
        return Refused(BodyShort);
      }
      len := len + got;
    }
    assert body[..len] == data[from..from + len];
    r := Ok(body[..len]);
  }

  /** However the reads split the stream, the verdict and the fields are those of
      the one pure reading of it. */
  method ReadRequest(peer: Peer) returns (r: Result<Request>)
    requires peer.pos == 0
    modifies peer
    ensures r == Parse(peer.data)
  {
    hide StrStr, CString, HeadEnd, ParseHead;
    var hdr := new char[MAX_HEADER_BYTES + 1];
    var used, end := ReadHead(peer, hdr);
    if end < 0 {
      return Refused(if used < MAX_HEADER_BYTES then ClosedEarly else HeadersTooLarge);
    }
    var buf := hdr[..used];
    var q := ReadLines(buf, end);
    assert buf[..end + 2] == peer.data[..end + 2];
    if q.Refused? {
      return q;
    }
    BodyFits(buf[..end + 2]);
    var body := ReadBody(peer, hdr, used, end + 4, BodyLength(q.value.fields));
    r := if body.Refused? then Refused(body.reason) else Ok(q.value.(body := body.value));
  }
}
