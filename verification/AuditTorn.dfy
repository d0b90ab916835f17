/** Writes cut short anywhere in a log (src/fhsm_audit.c:688-694): whatever is
    recorded next is glued to the bytes they left. */
module AuditTorn {
  import opened CText
  import opened AuditLine
  import opened AuditSearch
  import opened AuditChain
  import opened AuditIntegrity
  import opened AuditFailures

  // --------------------------------------------------- tags found in a log

  /** An `hmac` field with a readable tag stands at `q`. */
  predicate TagAt(s: string, q: nat) { q + 72 <= |s| && OccursAt(s, Field("hmac"), q) && HexAt(s, q + 8) }

  /** Such a field holds no brace, which is what every line begins with. */
  lemma NoBraceIn(s: string, q: nat, k: nat)
    requires TagAt(s, q) && q <= k < q + 72
    ensures s[k] != '{'
  {
    assert Field("hmac") == "\"hmac\":\"";
    if k < q + 8 {
      assert s[k] == s[q..q + 8][k - q];
    }
  }

  lemma TagAtShift(s: string, lo: nat, hi: nat, q: nat)
    requires lo <= hi <= |s| && q + 72 <= hi - lo
    ensures TagAt(s[lo..hi], q) <==> TagAt(s, lo + q)
    ensures UnhexAt(s[lo..hi], q + 8) == UnhexAt(s, lo + q + 8)
  {
    hide UnhexAt, HexAt, Field;
    FieldShape("hmac");
    SliceOfSlice(s, lo, hi, q, q + 8);
    UnhexShift(s, lo, hi, q + 8);
  }

  lemma UnhexShift(s: string, lo: nat, hi: nat, at: nat)
    requires lo <= hi <= |s| && at + 64 <= hi - lo
    ensures HexAt(s[lo..hi], at) <==> HexAt(s, lo + at)
    ensures UnhexAt(s[lo..hi], at) == UnhexAt(s, lo + at)
  {
    var t := s[lo..hi];
    assert forall j :: at <= j < at + 64 ==> t[j] == s[lo + j];
    assert forall j :: lo + at <= j < lo + at + 64 ==> t[j - lo] == s[j];
    if HexAt(t, at) {
      assert UnhexAt(t, at).value == UnhexAt(s, lo + at).value;
    }
  }

  lemma SuffixText(tag: Tag)
    ensures Join(SuffixSegs(tag)) == "\"hmac\":\"" + Hex(tag) + "\"}"
  {
    hide Hex;
    var s := SuffixSegs(tag);
    assert s[1..][1..] == s[2..] && s[2..][1..] == s[3..] && s[3..][1..] == s[4..];
    assert Join(s[4..]) == "}";
    assert Join(s[3..]) == Hex(tag) + "\"" + "}";
    assert Join(s[2..]) == ":" + "\"" + Join(s[3..]);
    assert Join(s[1..]) == "hmac" + "\"" + Join(s[2..]);
  }

  /** A line has one such field, at the end of its body, and it holds its tag. */
  lemma TagInLine(seqno: nat, ev: Event, prev: Tag, tag: Tag, q: nat)
    requires GoodEvent(ev) && Clean(ev) && TagAt(Line(seqno, ev, prev, tag), q)
    ensures q == |Body(seqno, ev, prev)| && UnhexAt(Line(seqno, ev, prev, tag), q + 8) == Some(tag)
  {
    hide Body, Join, UnhexAt, HexAt, StrStr, Hex, Printed;
    var body, shown, line := Body(seqno, ev, prev), Shown(seqno, ev, prev, tag), Line(seqno, ev, prev, tag);
    HmacLands(seqno, ev, prev, tag);
    SuffixText(tag);
    assert |line| == |body| + 75;
    assert line[..|shown|] == shown;
    assert Field("hmac") == "\"hmac\":\"";
    assert shown[q..q + 8] == line[q..q + 8];
    assert OccursAt(shown, Field("hmac"), q);
    assert line[q] == line[q..q + 8][0] == '"';
    assert line[|body| + 1] == 'h' && line[|body| + 2] == 'm' && line[|body| + 3] == 'a';
    UnhexCut(line, |shown|, q + 8);
  }

  lemma LineLength(mac: Mac, o: Opening, i: nat)
    requires i < |o|
    ensures |LineOf(mac, o, i)| == |BodyOf(mac, o, i)| + 75
  {
    hide Body, Join, Hex, Prev;
    SuffixText(mac(BodyOf(mac, o, i)));
  }

  lemma LineBegins(mac: Mac, o: Opening, i: nat)
    requires i < |o|
    ensures LineOf(mac, o, i) != "" && LineOf(mac, o, i)[0] == '{'
  {
    hide HeadSegs, TailSegs, Params, Join, Prev, BodyOf;
    var t := HeadText((i + 1) % U64, o[i].ev);
  }

  /** The tag in what an attempt left is its own. */
  lemma TagInLeft(mac: Mac, o: Opening, i: nat, q: nat)
    requires i < |o| && GoodEvent(o[i].ev) && Clean(o[i].ev) && TagAt(Left(mac, o, i), q)
    ensures q == |BodyOf(mac, o, i)| && Tagged(o[i])
    ensures UnhexAt(Left(mac, o, i), q + 8) == Some(mac(BodyOf(mac, o, i)))
  {
    hide Body, Line, UnhexAt, HexAt, TagAt, Prev, GoodEvent, Clean;
    var left, line := Left(mac, o, i), LineOf(mac, o, i);
    assert |left| >= 72 by { TagFits(left, q); }
    assert left == line[..|left|];
    assert left == line[0..|left|];
    TagFits(left, q);
    TagAtShift(line, 0, |left|, q);
    TagInLine((i + 1) % U64, o[i].ev, Prev(mac, o, i), mac(BodyOf(mac, o, i)), q);
  }

  lemma TagFits(s: string, q: nat)
    requires TagAt(s, q)
    ensures q + 72 <= |s|
  {
  }

  /** Every tag in a log, wherever writes were cut, is that of an attempt that
      left it in its place. */
  lemma {:induction false} TagInText(mac: Mac, o: Opening, n: nat, q: nat) returns (g: nat)
    requires n <= |o| && GoodAttempts(o, n) && TagAt(Text(mac, o, n), q)
    ensures g < n && Tagged(o[g]) && q == |Text(mac, o, g)| + |BodyOf(mac, o, g)|
    ensures |Left(mac, o, g)| >= |BodyOf(mac, o, g)| + 72
    ensures UnhexAt(Text(mac, o, n), q + 8) == Some(mac(BodyOf(mac, o, g)))
  {
    hide Left, BodyOf, UnhexAt, HexAt, TagAt, GoodEvent, Clean;
    var text := Text(mac, o, n);
    TagFits(text, q);
    if n == 0 {
      assert false;
    } else {
      var front, left := Text(mac, o, n - 1), Left(mac, o, n - 1);
      assert text[0..|front|] == front && text[|front|..|text|] == left;
      if q + 72 <= |front| {
        TagAtShift(text, 0, |front|, q);
        g := TagInText(mac, o, n - 1, q);
      } else {
        assert q >= |front| by { NotAcross(mac, o, n, q); }
        g := n - 1;
        TagAtShift(text, |front|, |text|, q - |front|);
        TagInLeft(mac, o, n - 1, q - |front|);
        TagFits(left, q - |front|);
      }
    }
  }

  lemma NotAcross(mac: Mac, o: Opening, n: nat, q: nat)
    requires 0 < n <= |o| && TagAt(Text(mac, o, n), q) && q + 72 > |Text(mac, o, n - 1)|
    ensures q >= |Text(mac, o, n - 1)|
  {
    hide TagAt, LineOf;
    var front, left := Text(mac, o, n - 1), Left(mac, o, n - 1);
    var text := Text(mac, o, n);
    TagFits(text, q);
    LineBegins(mac, o, n - 1);
    assert text[|front|] == left[0] == '{';
    if q < |front| {
      NoBraceIn(text, q, |front|);
    }
  }

  // ------------------------------------------------------- lines of a file

  lemma {:induction false} ChunkWithin(s: string, cap: nat, i: nat) returns (at: nat)
    requires cap >= 1 && i < |Chunks(s, cap)|
    ensures var c := Chunks(s, cap)[i]; at + |c| <= |s| && s[at..at + |c|] == c
    decreases |s|
  {
    hide ChunkLen;
    var n := ChunkLen(s, cap);
    if i == 0 {
      at := 0;
    } else {
      var rest := ChunkWithin(s[n..], cap, i - 1);
      at := n + rest;
      var c := Chunks(s[n..], cap)[i - 1];
      assert s[n..|s|] == s[n..];
      SliceOfSlice(s, n, |s|, rest, rest + |c|);
    }
  }

  lemma SeenPrefix(c: string)
    ensures Seen(c) <= c
  {
  }

  /** Each line of a file stands somewhere in it. */
  lemma LineWithin(file: string, i: nat) returns (at: nat)
    requires i < |Lines(file)|
    ensures var l := Lines(file)[i]; at + |l| <= |file| && file[at..at + |l|] == l
  {
    hide Chunks, Seen;
    at := ChunkWithin(file, READ_CAP, i);
    var c, l := Chunks(file, READ_CAP)[i], Lines(file)[i];
    SeenPrefix(c);
    assert l == c[0..|l|];
    SliceOfSlice(file, at, at + |c|, 0, |l|);
  }

  lemma RecordedTag(line: string)
    requires Recorded(line).Some?
    ensures var h := StrStr(line, Field("hmac"));
            h >= 0 && TagAt(line, h) && Recorded(line) == UnhexAt(line, h + 8) && Authenticated(line) == line[..h]
  {
    hide StrStr, UnhexAt;
    FieldShape("hmac");
  }

  /** A tag within a piece of a text, seen from the text. */
  lemma TagOutward(text: string, piece: string, at: nat, h: nat)
    requires at + |piece| <= |text| && text[at..at + |piece|] == piece && TagAt(piece, h)
    ensures TagAt(text, at + h) && UnhexAt(text, at + h + 8) == UnhexAt(piece, h + 8)
  {
    hide UnhexAt, TagAt;
    TagFits(piece, h);
    TagAtShift(text, at, at + |piece|, h);
  }

  /** Where the tag read from a line of a file stands in the file. */
  lemma RecordedWithin(file: string, i: nat) returns (q: nat)
    requires i < |Lines(file)| && Recorded(Lines(file)[i]).Some?
    ensures TagAt(file, q) && Recorded(Lines(file)[i]) == UnhexAt(file, q + 8)
  {
    hide Lines, Recorded, Authenticated, UnhexAt, TagAt, StrStr, Field;
    var line := Lines(file)[i];
    RecordedTag(line);
    var h: nat := StrStr(line, Field("hmac"));
    var at := LineWithin(file, i);
    TagOutward(file, line, at, h);
    q := at + h;
  }

  /** Every tag the verifier reads from a log is one its author computed for an attempt. */
  lemma RecordedIsOwn(mac: Mac, o: Opening, n: nat, i: nat) returns (g: nat)
    requires n <= |o| && GoodAttempts(o, n) && i < |Lines(Text(mac, o, n))|
    requires Recorded(Lines(Text(mac, o, n))[i]).Some?
    ensures g < n && Tagged(o[g]) && Recorded(Lines(Text(mac, o, n))[i]) == Some(mac(BodyOf(mac, o, g)))
  {
    hide Lines, Text, Recorded, BodyOf, UnhexAt, TagAt, GoodAttempts, Left;
    var q := RecordedWithin(Text(mac, o, n), i);
    g := TagInText(mac, o, n, q);
  }

  // ------------------------------------------------- the first failed attempt

  /** A log as `write` can leave it: what is torn is shorter than its line. */
  predicate Logged(mac: Mac, o: Opening, n: nat) {
    && n <= |o| && GoodAttempts(o, n)
    && forall i :: 0 <= i < n && o[i].outcome.Torn? ==> o[i].outcome.kept < |LineOf(mac, o, i)|
  }

  predicate TornBytes(a: Attempt) { a.outcome.Torn? && a.outcome.kept > 0 }

  /** The first attempt that was not written whole, or `n`. */
  function FirstFailed(o: Opening, n: nat): (f: nat)
    requires n <= |o|
    ensures f <= n && (forall i :: 0 <= i < f ==> o[i].outcome.Written?)
    ensures f < n ==> !o[f].outcome.Written?
  {
    if n == 0 then 0
    else
      var f := FirstFailed(o, n - 1);
      if f < n - 1 || !o[n - 1].outcome.Written? then f else n
  }

  /** What attempts `f` to `n - 1` left. */
  function Behind(mac: Mac, o: Opening, f: nat, n: nat): string
    requires f <= n <= |o|
  {
    if f == n then "" else Behind(mac, o, f, n - 1) + Left(mac, o, n - 1)
  }

  lemma {:induction false} TextSplit(mac: Mac, o: Opening, f: nat, n: nat)
    requires f <= n <= |o|
    ensures Text(mac, o, n) == Text(mac, o, f) + Behind(mac, o, f, n)
  {
    hide Left;
    if f < n {
      TextSplit(mac, o, f, n - 1);
    }
  }

  lemma {:induction false} BehindSplit(mac: Mac, o: Opening, f: nat, n: nat)
    requires f < n <= |o|
    ensures Behind(mac, o, f, n) == Left(mac, o, f) + Behind(mac, o, f + 1, n)
  {
    hide Left;
    if f + 1 < n {
      BehindSplit(mac, o, f, n - 1);
    } else {
      assert Behind(mac, o, f, f) == "" && Behind(mac, o, f + 1, n) == "";
    }
  }

  /** Read in one piece: it fits the buffer and ends no later than its first newline. */
  predicate OneChunk(r: string) { r != "" && |r| <= READ_CAP && '\n' !in r[..|r| - 1] }

  lemma {:induction false} WholeChunk(r: string, cap: nat)
    requires r != "" && cap >= 1
    ensures ChunkLen(r, cap) == |r| <==> |r| <= cap && '\n' !in r[..|r| - 1]
    decreases |r|
  {
    if |r| > 1 {
      assert r[..|r| - 1][0] == r[0] && r[..|r| - 1][1..] == r[1..][..|r| - 2];
      assert '\n' in r[..|r| - 1] <==> r[0] == '\n' || '\n' in r[1..][..|r| - 2];
      if r[0] != '\n' && cap > 1 {
        WholeChunk(r[1..], cap - 1);
      }
    }
  }

  lemma OneLineIff(r: string)
    ensures |Lines(r)| == 0 <==> r == ""
    ensures |Lines(r)| == 1 <==> OneChunk(r)
    ensures OneChunk(r) ==> Lines(r) == [Seen(r)]
  {
    hide ChunkLen, Seen;
    if r != "" {
      WholeChunk(r, READ_CAP);
      var n := ChunkLen(r, READ_CAP);
      assert r[..|r|] == r && r[|r|..] == "";
      NoChunks();
      if n < |r| {
        assert r[n..] != "";
        assert |Chunks(r[n..], READ_CAP)| >= 1;
      }
    }
  }

  /** The lines of a log: those written whole before the first failure, and then
      whatever the rest of the text is read as. */
  lemma LinesAround(mac: Mac, o: Opening, n: nat)
    requires Logged(mac, o, n)
    ensures var f := FirstFailed(o, n);
            && Lines(Text(mac, o, n)) == Lines(Text(mac, o, f)) + Lines(Behind(mac, o, f, n))
            && |Lines(Text(mac, o, f))| == f && Accepted(mac, Text(mac, o, f))
            && forall i :: 0 <= i < f ==> Lines(Text(mac, o, f))[i] == ShownOf(mac, o, i)
  {
    hide Lines, Text, Behind, ShownOf, GoodEvent, Clean, LineOf, Accepted;
    var f := FirstFailed(o, n);
    TextSplit(mac, o, f, n);
    TextReadsBack(mac, o, f);
    HonestLogAccepted(mac, o, f);
    if f == 0 {
      NoText(mac, o);
    }
    LinesConcat(Text(mac, o, f), Behind(mac, o, f, n));
  }

  // ---------------------------------------------- a line with text behind it

  /** A line cut behind its tag passes the three checks whatever is glued to it. */
  lemma GluedLinks(mac: Mac, n: nat, ev: Event, prev: Tag, kept: nat, more: string)
    requires GoodEvent(ev) && Clean(ev)
    requires var body := Body(n % U64, ev, prev); |body| + 72 <= kept <= |Shown(n % U64, ev, prev, mac(body))|
    ensures var body := Body(n % U64, ev, prev);
            var line := Shown(n % U64, ev, prev, mac(body))[..kept] + more;
            LinkOk(mac, line, n, prev) && Authenticated(line) == body
  {
    hide Body, SuffixSegs, Join, UnhexAt, StrToUll, Dec, Field, StrStr, Shown, Printed;
    var body := Body(n % U64, ev, prev);
    var shown := Shown(n % U64, ev, prev, mac(body));
    var piece, line := shown[..kept], shown[..kept] + more;
    HmacLands(n % U64, ev, prev, mac(body));
    FieldShape("hmac");
    ShownBegins(n % U64, ev, prev, mac(body));
    TagWithin(shown, kept, |body|, mac(body));
    StrStrPrefix(piece, more, Field("hmac"));
    assert line[..|piece|] == piece;
    UnhexCut(line, |piece|, |body| + 8);
    var rest := line[|body|..];
    assert line[..|body|] == body && line == body + rest;
    PrevLands(n % U64, ev, prev);
    PrevFieldSurvives(body, rest);
    SeqLands(n % U64, ev, prev, rest);
  }

  /** A line cut within its tag has no readable tag, whatever line is glued to it. */
  lemma CutTag(mac: Mac, n: nat, ev: Event, prev: Tag, kept: nat, more: string)
    requires GoodEvent(ev) && Clean(ev) && (more == "" || more[0] == '{')
    requires var body := Body(n % U64, ev, prev);
             |body| + 8 <= kept < |body| + 72 && kept <= |Shown(n % U64, ev, prev, mac(body))|
    ensures var body := Body(n % U64, ev, prev);
            Recorded(Shown(n % U64, ev, prev, mac(body))[..kept] + more).None?
  {
    hide Body, SuffixSegs, Join, Field, StrStr, Shown, Printed;
    var body := Body(n % U64, ev, prev);
    var shown := Shown(n % U64, ev, prev, mac(body));
    var piece, line := shown[..kept], shown[..kept] + more;
    HmacLands(n % U64, ev, prev, mac(body));
    FieldShape("hmac");
    StrStrCut(shown, Field("hmac"), kept);
    StrStrPrefix(piece, more, Field("hmac"));
    assert more != "" ==> line[kept] == '{';
    assert !HexAt(line, |body| + 8);
  }

  lemma {:induction false} BehindBegins(mac: Mac, o: Opening, f: nat, n: nat)
    requires f <= n <= |o|
    ensures Behind(mac, o, f, n) == "" || Behind(mac, o, f, n)[0] == '{'
    decreases n - f
  {
    hide LineOf;
    if f < n {
      BehindSplit(mac, o, f, n);
      BehindBegins(mac, o, f + 1, n);
      LineBegins(mac, o, f);
    }
  }

  lemma LeftClean(mac: Mac, o: Opening, i: nat)
    requires i < |o| && GoodEvent(o[i].ev)
    ensures NUL !in Left(mac, o, i)
    ensures o[i].outcome.Torn? && o[i].outcome.kept < |LineOf(mac, o, i)| ==>
              |Left(mac, o, i)| == o[i].outcome.kept <= |ShownOf(mac, o, i)|
              && Left(mac, o, i) == ShownOf(mac, o, i)[..o[i].outcome.kept] && '\n' !in Left(mac, o, i)
  {
    hide Body, Shown, BodyOf, Prev;
    var tag, prev := mac(BodyOf(mac, o, i)), Prev(mac, o, i);
    ShownOneLine((i + 1) % U64, o[i].ev, prev, tag, '\n');
    ShownOneLine((i + 1) % U64, o[i].ev, prev, tag, NUL);
    assert LineOf(mac, o, i) == ShownOf(mac, o, i) + "\n";
  }

  lemma {:induction false} BehindClean(mac: Mac, o: Opening, f: nat, n: nat)
    requires f <= n <= |o| && GoodAttempts(o, n)
    ensures NUL !in Behind(mac, o, f, n)
  {
    hide Left, GoodEvent, Clean;
    if f < n {
      BehindClean(mac, o, f, n - 1);
      LeftClean(mac, o, n - 1);
    }
  }

  /** How the text behind the first failure is seen: the torn bytes, and more. */
  lemma SeenBehind(mac: Mac, o: Opening, f: nat, n: nat, r: string) returns (more: string)
    requires f < n <= |o| && Logged(mac, o, n) && o[f].outcome.Torn?
    requires r != "" && r <= Behind(mac, o, f, n) && o[f].outcome.kept <= |r|
    ensures o[f].outcome.kept <= |ShownOf(mac, o, f)| && Seen(r) == ShownOf(mac, o, f)[..o[f].outcome.kept] + more
    ensures more == "" || more[0] == '{'
  {
    hide Left, Behind, ShownOf, GoodEvent, Clean, LineOf;
    var kept, b := o[f].outcome.kept, Behind(mac, o, f, n);
    BehindClean(mac, o, f, n);
    BehindSplit(mac, o, f, n);
    BehindBegins(mac, o, f + 1, n);
    LeftClean(mac, o, f);
    assert CString(r) == r;
    var seen := Seen(r);
    var left := Left(mac, o, f);
    assert |left| == kept <= |r| && r[..kept] == b[..kept] == left;
    assert seen == r || (seen == r[..|r| - 1] && r[|r| - 1] == '\n');
    assert |r| == kept ==> r == left;
    more := seen[kept..];
    assert seen[..kept] == left;
    assert seen == left + more;
    assert more != "" ==> more[0] == r[kept] == b[kept] == Behind(mac, o, f + 1, n)[0];
  }

  lemma TornFits(mac: Mac, o: Opening, f: nat, n: nat)
    requires f < n <= |o| && Logged(mac, o, n) && o[f].outcome.Torn?
    ensures o[f].outcome.kept <= |Behind(mac, o, f, n)|
  {
    hide Left, GoodEvent, Clean, LineOf, ShownOf;
    BehindSplit(mac, o, f, n);
    LeftClean(mac, o, f);
  }

  lemma {:induction false} ChunkReaches(r: string, cap: nat, k: nat)
    requires 1 <= k <= |r| && k <= cap && '\n' !in r[..k]
    ensures ChunkLen(r, cap) >= k
    decreases k
  {
    assert r[0] == r[..k][0];
    if k > 1 {
      assert r[1..][..k - 1] == r[..k][1..];
      ChunkReaches(r[1..], cap - 1, k - 1);
    }
  }

  lemma FirstChunk(mac: Mac, o: Opening, f: nat, n: nat)
    requires f < n <= |o| && Logged(mac, o, n) && o[f].outcome.Torn? && o[f].outcome.kept > 0
    ensures var r := Behind(mac, o, f, n);
            && o[f].outcome.kept <= ChunkLen(r, READ_CAP)
            && |Lines(r)| > 0 && Lines(r)[0] == Seen(r[..ChunkLen(r, READ_CAP)])
  {
    hide Left, Behind, ShownOf, GoodEvent, Clean, LineOf, Seen, ChunkLen;
    var r := Behind(mac, o, f, n);
    BehindSplit(mac, o, f, n);
    LeftClean(mac, o, f);
    LineIsShort(mac, o, f);
    assert r[..o[f].outcome.kept] == Left(mac, o, f);
    ChunkReaches(r, READ_CAP, o[f].outcome.kept);
  }

  lemma LineIsShort(mac: Mac, o: Opening, i: nat)
    requires i < |o| && GoodEvent(o[i].ev)
    ensures |LineOf(mac, o, i)| < LINE_SIZE
  {
    hide Line, BodyOf, Prev;
    LineFits((i + 1) % U64, o[i].ev, Prev(mac, o, i), mac(BodyOf(mac, o, i)));
  }

  /** The line the verifier reads behind the whole ones: the torn bytes, and more. */
  lemma FirstLineBehind(mac: Mac, o: Opening, n: nat) returns (more: string)
    requires Logged(mac, o, n) && FirstFailed(o, n) < n && TornBytes(o[FirstFailed(o, n)])
    ensures var lines, f := Lines(Text(mac, o, n)), FirstFailed(o, n);
            && |lines| > f && o[f].outcome.kept <= |ShownOf(mac, o, f)|
            && lines[f] == ShownOf(mac, o, f)[..o[f].outcome.kept] + more
    ensures more == "" || more[0] == '{'
  {
    hide Lines, Text, Behind, ShownOf, GoodAttempts, LineOf, Seen, ChunkLen, Accepted;
    var f := FirstFailed(o, n);
    var r := Behind(mac, o, f, n);
    LinesAround(mac, o, n);
    FirstChunk(mac, o, f, n);
    more := SeenBehind(mac, o, f, n, r[..ChunkLen(r, READ_CAP)]);
  }

  // ------------------------------------------------------- what is accepted

  /** Nothing was left from the first failure on; or that write was cut behind its
      tag, and all that followed ends no later than the first newline. */
  predicate Readable(mac: Mac, o: Opening, n: nat)
    requires n <= |o|
  {
    var f := FirstFailed(o, n);
    var r := Behind(mac, o, f, n);
    || r == ""
    || (o[f].outcome.Torn? && o[f].outcome.kept >= |BodyOf(mac, o, f)| + 72 && OneChunk(r))
  }

  /** For every MAC, such a log is accepted. */
  lemma ReadableAccepted(mac: Mac, o: Opening, n: nat)
    requires Logged(mac, o, n) && Readable(mac, o, n)
    ensures Accepted(mac, Text(mac, o, n))
    ensures var lines, f := Lines(Text(mac, o, n)), FirstFailed(o, n);
            |lines| == f || (f < n && |lines| == f + 1 && Authenticated(lines[f]) == BodyOf(mac, o, f))
  {
    hide Lines, Text, Behind, ShownOf, GoodEvent, Clean, LineOf, Authenticated, BodyOf, Seen, LinksTo, LinkOk;
    var f := FirstFailed(o, n);
    var r := Behind(mac, o, f, n);
    LinesAround(mac, o, n);
    OneLineIff(r);
    if r == "" {
      assert Lines(Text(mac, o, n)) == Lines(Text(mac, o, f));
    } else {
      NothingBehind(mac, o, n);
      var more := FirstLineBehind(mac, o, n);
      assert Lines(Text(mac, o, n)) == Lines(Text(mac, o, f)) + [Lines(Text(mac, o, n))[f]];
      TornLinkOk(mac, o, f, more);
      AppendLink(mac, o, f, Lines(Text(mac, o, f)), Lines(Text(mac, o, n))[f]);
    }
  }

  lemma TornLinkOk(mac: Mac, o: Opening, f: nat, more: string)
    requires f < |o| && GoodEvent(o[f].ev) && Clean(o[f].ev) && o[f].outcome.Torn?
    requires |BodyOf(mac, o, f)| + 72 <= o[f].outcome.kept <= |ShownOf(mac, o, f)|
    ensures var line := ShownOf(mac, o, f)[..o[f].outcome.kept] + more;
            LinkOk(mac, line, f + 1, Prev(mac, o, f)) && Authenticated(line) == BodyOf(mac, o, f)
  {
    hide ShownOf, BodyOf, LinkOk, Authenticated, GoodEvent, Clean, Prev, Body, Shown;
    ShownIs(mac, o, f);
    GluedLinks(mac, f + 1, o[f].ev, Prev(mac, o, f), o[f].outcome.kept, more);
  }

  lemma NothingBehind(mac: Mac, o: Opening, n: nat)
    requires n <= |o| && Behind(mac, o, FirstFailed(o, n), n) != ""
    ensures FirstFailed(o, n) < n
  {
  }

  lemma ShownIs(mac: Mac, o: Opening, i: nat)
    requires i < |o|
    ensures BodyOf(mac, o, i) == Body((i + 1) % U64, o[i].ev, Prev(mac, o, i))
    ensures ShownOf(mac, o, i) == Shown((i + 1) % U64, o[i].ev, Prev(mac, o, i), mac(BodyOf(mac, o, i)))
  {
    hide Body, Shown;
  }

  /** The verifier expects what the writer had when it made attempt `f`. */
  lemma ExpectedIsPrev(mac: Mac, o: Opening, f: nat, lines: seq<string>)
    requires f <= |o| && AllWritten(o, f) && GoodAttempts(o, f) && |lines| >= f
    requires forall i :: 0 <= i < f ==> lines[i] == ShownOf(mac, o, i)
    ensures Expected(mac, lines, f) == Prev(mac, o, f)
  {
    hide Body, Shown, LinkOk, Authenticated, GoodEvent, Clean;
    if f > 0 {
      HonestLink(mac, f, o[f - 1].ev, Prev(mac, o, f - 1));
    }
  }

  lemma AppendLink(mac: Mac, o: Opening, f: nat, lines: seq<string>, x: string)
    requires f < |o| && AllWritten(o, f) && GoodAttempts(o, f) && |lines| == f && LinksTo(mac, lines, f)
    requires forall i :: 0 <= i < f ==> lines[i] == ShownOf(mac, o, i)
    requires LinkOk(mac, x, f + 1, Prev(mac, o, f))
    ensures LinksTo(mac, lines + [x], f + 1)
  {
    hide LinkOk, ShownOf, GoodEvent, Clean, Expected, LinksTo;
    ExpectedIsPrev(mac, o, f, lines);
    LinksKept(mac, lines, x);
    assert (lines + [x])[f] == x;
    LinksOneMore(mac, lines + [x], f);
  }

  // --------------------------------------------------- nothing else is, but for

  /** From the first failure on, a line whose authenticated part is not a text the
      author MACed, and yet has the tag of one. */
  ghost predicate Clash(mac: Mac, o: Opening, n: nat)
    requires n <= |o|
  {
    var lines := Lines(Text(mac, o, n));
    exists i, b :: FirstFailed(o, n) <= i < |lines| && Maced(mac, [o], b)
                   && b != Authenticated(lines[i]) && mac(b) == mac(Authenticated(lines[i]))
  }

  lemma NoClash(mac: Mac, o: Opening, n: nat, i: nat, b: string)
    requires n <= |o| && !Clash(mac, o, n) && FirstFailed(o, n) <= i < |Lines(Text(mac, o, n))|
    requires Maced(mac, [o], b) && mac(b) == mac(Authenticated(Lines(Text(mac, o, n))[i]))
    ensures b == Authenticated(Lines(Text(mac, o, n))[i])
  {
    hide Lines, Text, Authenticated, Maced;
  }

  lemma OwnMaced(mac: Mac, o: Opening, g: nat)
    requires g < |o| && Tagged(o[g])
    ensures Maced(mac, [o], BodyOf(mac, o, g))
  {
    hide BodyOf;
    assert [o][0] == o;
  }

  lemma AcceptedLinks(mac: Mac, file: string, i: nat)
    requires Accepted(mac, file) && i < |Lines(file)|
    ensures var l := Lines(file)[i];
            && Recorded(l) == Some(mac(Authenticated(l))) && SeqField(l) == Some((i + 1) % U64)
            && PrevField(l) == Some(Expected(mac, Lines(file), i))
  {
    hide Lines, Recorded, Authenticated, SeqField, PrevField, Expected;
    assert LinkOk(mac, Lines(file)[i], i + 1, Expected(mac, Lines(file), i));
  }

  /** An accepted line authenticates the attempt of its own number. */
  lemma AcceptedBody(mac: Mac, o: Opening, n: nat, i: nat)
    requires n < U64 && Logged(mac, o, n) && Accepted(mac, Text(mac, o, n)) && !Clash(mac, o, n)
    requires FirstFailed(o, n) <= i <= n && i < |Lines(Text(mac, o, n))|
    ensures i < n && Tagged(o[i]) && Authenticated(Lines(Text(mac, o, n))[i]) == BodyOf(mac, o, i)
    ensures PrevField(Lines(Text(mac, o, n))[i]) == Some(Prev(mac, o, i))
  {
    hide Lines, Text, Authenticated, Recorded, SeqField, PrevField, BodyOf, Prev, Accepted, Clash, Maced, Expected;
    hide GoodEvent, Clean, LineOf;
    var line := Lines(Text(mac, o, n))[i];
    AcceptedLinks(mac, Text(mac, o, n), i);
    var g := RecordedIsOwn(mac, o, n, i);
    OwnMaced(mac, o, g);
    NoClash(mac, o, n, i, BodyOf(mac, o, g));
    FieldsOfBody(mac, o, g, line);
    SuccMod(i, g);
    assert i % U64 == i;
  }

  /** One chunk is all an accepted log has behind its first failure. */
  lemma NoSecondLine(mac: Mac, o: Opening, n: nat)
    requires n < U64 && Logged(mac, o, n) && Accepted(mac, Text(mac, o, n)) && !Clash(mac, o, n)
    ensures |Lines(Text(mac, o, n))| <= FirstFailed(o, n) + 1
  {
    hide Lines, Text, Authenticated, Recorded, SeqField, PrevField, BodyOf, Accepted, Clash, Maced;
    hide GoodEvent, Clean, LineOf;
    var lines, f := Lines(Text(mac, o, n)), FirstFailed(o, n);
    if |lines| >= f + 2 {
      if f == n {
        AcceptedBody(mac, o, n, n);
        assert false;
      }
      AcceptedBody(mac, o, n, f);
      AcceptedBody(mac, o, n, f + 1);
      AcceptedLinks(mac, Text(mac, o, n), f + 1);
      assert mac(BodyOf(mac, o, f)) == Prev(mac, o, f + 1) == Prev(mac, o, f);
      EarlierText(mac, o, f);
      var b := if f == 0 then INIT else BodyOf(mac, o, f - 1);
      NoClash(mac, o, n, f, b) by { EarlierMaced(mac, o, f); }
      assert false;
    }
  }

  /** What attempt `f` links to, all before it written, is not its own body. */
  lemma EarlierText(mac: Mac, o: Opening, f: nat)
    requires f < |o| && f + 1 < U64 && forall i :: 0 <= i < f ==> o[i].outcome.Written?
    ensures var b := if f == 0 then INIT else BodyOf(mac, o, f - 1);
            Prev(mac, o, f) == mac(b) && b != BodyOf(mac, o, f)
  {
    hide Body;
    InitIsNoBody((f + 1) % U64, o[f].ev, Prev(mac, o, f));
    if f > 0 && BodyOf(mac, o, f - 1) == BodyOf(mac, o, f) {
      BodyTellsPosition(mac, o, f - 1, o, f);
    }
  }

  lemma EarlierMaced(mac: Mac, o: Opening, f: nat)
    requires f <= |o| && forall i :: 0 <= i < f ==> o[i].outcome.Written?
    ensures Maced(mac, [o], if f == 0 then INIT else BodyOf(mac, o, f - 1))
  {
    hide BodyOf;
    if f > 0 {
      OwnMaced(mac, o, f - 1);
    }
  }

  /** Where the tag of the first line behind the first failure stands in the text. */
  lemma TagBehind(mac: Mac, o: Opening, n: nat)
    requires Logged(mac, o, n) && FirstFailed(o, n) < n
    requires var lines, f := Lines(Text(mac, o, n)), FirstFailed(o, n);
             |lines| > f && Recorded(lines[f]).Some? && Authenticated(lines[f]) == BodyOf(mac, o, f)
    ensures var lines, f := Lines(Text(mac, o, n)), FirstFailed(o, n);
            var q := |Text(mac, o, f)| + |BodyOf(mac, o, f)|;
            TagAt(Text(mac, o, n), q) && Recorded(lines[f]) == UnhexAt(Text(mac, o, n), q + 8)
  {
    hide Lines, Text, Behind, Authenticated, Recorded, BodyOf, GoodEvent, Clean, LineOf, UnhexAt, TagAt, StrStr;
    var text, f := Text(mac, o, n), FirstFailed(o, n);
    var front, r, line := Text(mac, o, f), Behind(mac, o, f, n), Lines(text)[f];
    LinesAround(mac, o, n);
    TextSplit(mac, o, f, n);
    FirstLine(r);
    RecordedTag(line);
    var h := |BodyOf(mac, o, f)|;
    assert h == StrStr(line, Field("hmac"));
    TagFits(line, h);
    PrefixBehind(front, r, line);
    TagAtShift(text, |front|, |front| + |line|, h);
  }

  /** It stands where the torn attempt itself left it. */
  lemma TornReachesTag(mac: Mac, o: Opening, n: nat)
    requires n < U64 && Logged(mac, o, n) && Accepted(mac, Text(mac, o, n)) && !Clash(mac, o, n)
    requires FirstFailed(o, n) < n && |Lines(Text(mac, o, n))| > FirstFailed(o, n)
    ensures var f := FirstFailed(o, n); o[f].outcome.Torn? && o[f].outcome.kept >= |BodyOf(mac, o, f)| + 72
  {
    hide Lines, Text, Authenticated, Recorded, SeqField, PrevField, BodyOf, Accepted, Clash, Maced, Prev;
    hide GoodEvent, Clean, LineOf, UnhexAt, TagAt, Expected, FirstFailed;
    var text, f := Text(mac, o, n), FirstFailed(o, n);
    AcceptedLinks(mac, text, f);
    AcceptedBody(mac, o, n, f);
    TagBehind(mac, o, n);
    var g := TagInText(mac, o, n, |Text(mac, o, f)| + |BodyOf(mac, o, f)|);
    OwnMaced(mac, o, g);
    NoClash(mac, o, n, f, BodyOf(mac, o, g));
    BodyTellsPosition(mac, o, f, o, g);
    LeftClean(mac, o, f);
  }

  lemma PrefixBehind(a: string, r: string, l: string)
    requires l <= r
    ensures (a + r)[|a|..|a| + |l|] == l
  {
  }

  lemma FirstLine(r: string)
    requires |Lines(r)| > 0
    ensures Lines(r)[0] <= r
  {
    hide Seen, ChunkLen;
    var n := ChunkLen(r, READ_CAP);
    SeenPrefix(r[..n]);
  }

  lemma AcceptedReadable(mac: Mac, o: Opening, n: nat)
    requires n < U64 && Logged(mac, o, n) && Accepted(mac, Text(mac, o, n)) && !Clash(mac, o, n)
    ensures Readable(mac, o, n)
  {
    hide Lines, Text, Behind, BodyOf, Accepted, Clash, LineOf, GoodEvent, Clean, ShownOf, Seen;
    var f := FirstFailed(o, n);
    var r := Behind(mac, o, f, n);
    LinesAround(mac, o, n);
    OneLineIff(r);
    if r != "" {
      NothingBehind(mac, o, n);
      NoSecondLine(mac, o, n);
      TornReachesTag(mac, o, n);
    }
  }

  // ------------------------------------------------------- whatever the MAC

  /** A log whose first failure was cut within its tag is refused, whatever follows. */
  lemma CutTagRefused(mac: Mac, o: Opening, n: nat)
    requires Logged(mac, o, n) && FirstFailed(o, n) < n && o[FirstFailed(o, n)].outcome.Torn?
    requires var f := FirstFailed(o, n);
             |BodyOf(mac, o, f)| + 8 <= o[f].outcome.kept < |BodyOf(mac, o, f)| + 72
    ensures !Accepted(mac, Text(mac, o, n))
  {
    hide Lines, Text, ShownOf, GoodEvent, Clean, LineOf, BodyOf, Recorded, Authenticated, SeqField, PrevField, Expected;
    var f := FirstFailed(o, n);
    var more := FirstLineBehind(mac, o, n);
    var line := Lines(Text(mac, o, n))[f];
    assert Recorded(line).None? by { TornTagUnread(mac, o, f, more); }
    assert !LinkOk(mac, line, f + 1, Expected(mac, Lines(Text(mac, o, n)), f));
  }

  lemma TornTagUnread(mac: Mac, o: Opening, f: nat, more: string)
    requires f < |o| && GoodEvent(o[f].ev) && Clean(o[f].ev) && o[f].outcome.Torn? && (more == "" || more[0] == '{')
    requires |BodyOf(mac, o, f)| + 8 <= o[f].outcome.kept < |BodyOf(mac, o, f)| + 72
    requires o[f].outcome.kept <= |ShownOf(mac, o, f)|
    ensures Recorded(ShownOf(mac, o, f)[..o[f].outcome.kept] + more).None?
  {
    hide ShownOf, BodyOf, Recorded, GoodEvent, Clean, Prev, Body, Shown;
    ShownIs(mac, o, f);
    CutTag(mac, f + 1, o[f].ev, Prev(mac, o, f), o[f].outcome.kept, more);
  }

  /** Something was recorded behind torn bytes. */
  predicate Glued(mac: Mac, o: Opening, n: nat)
    requires n <= |o|
  {
    exists j :: 0 <= j < n && TornBytes(o[j]) && Behind(mac, o, j + 1, n) != ""
  }

  lemma {:induction false} BehindNothing(mac: Mac, o: Opening, f: nat, n: nat)
    requires f <= n <= |o| && forall i :: f <= i < n ==> !o[i].outcome.Written? && Clearcut(o[i])
    ensures Behind(mac, o, f, n) == ""
  {
    hide LineOf;
    if f < n {
      BehindNothing(mac, o, f, n - 1);
    }
  }

  lemma {:induction false} BehindHolds(mac: Mac, o: Opening, f: nat, n: nat, j: nat)
    requires f <= j < n <= |o| && Left(mac, o, j) != ""
    ensures Behind(mac, o, f, n) != ""
    decreases n
  {
    hide Left;
    if j < n - 1 {
      BehindHolds(mac, o, f, n - 1, j);
    }
  }

  lemma FirstFailedIs(o: Opening, n: nat, f: nat)
    requires f < n <= |o| && !o[f].outcome.Written? && forall i :: 0 <= i < f ==> o[i].outcome.Written?
    ensures FirstFailed(o, n) == f
  {
  }

  /** Without torn bytes: nothing may follow a failure. */
  lemma ClearcutReadable(mac: Mac, o: Opening, n: nat)
    requires n < U64 && Logged(mac, o, n) && Accepted(mac, Text(mac, o, n)) && forall i :: 0 <= i < n ==> Clearcut(o[i])
    ensures Readable(mac, o, n)
  {
    hide Text, Accepted, GoodEvent, Clean, LineOf, Behind, BodyOf;
    FailuresAcceptedIff(mac, o, n);
    BehindNothing(mac, o, FirstFailed(o, n), n);
  }

  /** A torn line that reads as a link has the number of its own attempt. */
  lemma TornNumber(mac: Mac, o: Opening, j: nat, k: nat, link: Tag)
    requires j < |o| && j + 1 < U64 && k < j && GoodEvent(o[j].ev) && Clean(o[j].ev)
    requires o[j].outcome.Torn? && o[j].outcome.kept < |LineOf(mac, o, j)|
    ensures !LinkOk(mac, Left(mac, o, j), k + 1, link)
  {
    hide Body, Shown, SuffixSegs, Join, UnhexAt, StrToUll, Dec, Field, StrStr, Printed, BodyOf, Prev, LineOf, ShownOf;
    hide Left, Recorded, Authenticated, PrevField, GoodEvent, Clean;
    var kept, body, shown := o[j].outcome.kept, BodyOf(mac, o, j), ShownOf(mac, o, j);
    LeftClean(mac, o, j);
    ShownIs(mac, o, j);
    ShownBegins(j + 1, o[j].ev, Prev(mac, o, j), mac(body));
    HmacLandsGood(j + 1, o[j].ev, Prev(mac, o, j), mac(body));
    FieldShape("hmac");
    if kept < |body| + 72 {
      NoTagWithin(shown, kept, |body|);
    } else {
      var piece := shown[..kept];
      var rest := piece[|body|..];
      assert piece == body + rest;
      SeqLands(j + 1, o[j].ev, Prev(mac, o, j), rest);
    }
  }

  lemma HmacLandsGood(seqno: nat, ev: Event, prev: Tag, tag: Tag)
    requires GoodEvent(ev) && Clean(ev)
    ensures StrStr(Shown(seqno, ev, prev, tag), Field("hmac")) == |Body(seqno, ev, prev)|
  {
    hide Body, Shown, StrStr, Field, UnhexAt, Printed;
    HmacLands(seqno, ev, prev, tag);
  }

  /** With torn bytes at the end alone. */
  lemma TornEndReadable(mac: Mac, o: Opening, n: nat, j: nat)
    requires n < U64 && Logged(mac, o, n) && Accepted(mac, Text(mac, o, n)) && j < n && TornBytes(o[j])
    requires (forall i :: 0 <= i < j ==> Clearcut(o[i])) && Behind(mac, o, j + 1, n) == ""
    ensures Readable(mac, o, n)
  {
    hide Text, Accepted, GoodEvent, Clean, LineOf, Behind, BodyOf, Left, LinkOk, Lines, Seen, Expected, ShownOf;
    var left := Left(mac, o, j);
    TextSplit(mac, o, j + 1, n);
    assert Text(mac, o, n) == Text(mac, o, j + 1);
    BehindSplit(mac, o, j, n);
    assert Behind(mac, o, j, n) == left;
    LeftClean(mac, o, j);
    LineIsShort(mac, o, j);
    assert OneChunk(left);
    TornEndLines(mac, o, j);
    if forall i :: 0 <= i < j ==> o[i].outcome.Written? {
      FirstFailedIs(o, n, j);
      TornEndAcceptedIff(mac, o, j);
    } else {
      FailuresAcceptedIff(mac, o, j);
      var f := FirstFailed(o, j);
      BehindNothing(mac, o, f, j);
      ClearcutShort(mac, o, j);
      TornNumber(mac, o, j, f, Expected(mac, Lines(Text(mac, o, n)), f));
      TornLineFails(mac, o, n, j, f);
      assert false;
    }
  }

  /** The torn bytes are the last line, and those before are accepted without them. */
  lemma TornEndLines(mac: Mac, o: Opening, j: nat)
    requires j < |o| && j < U64 && GoodAttempts(o, j + 1) && TornBytes(o[j]) && o[j].outcome.kept < |LineOf(mac, o, j)|
    requires (forall i :: 0 <= i < j ==> Clearcut(o[i])) && Accepted(mac, Text(mac, o, j + 1))
    ensures Lines(Text(mac, o, j + 1)) == Shows(mac, o, j) + [Left(mac, o, j)]
    ensures Accepted(mac, Text(mac, o, j))
  {
    hide Text, GoodEvent, Clean, LineOf, Left, LinkOk, Lines, Shows, ShownOf, Authenticated;
    TornText(mac, o, j);
    ClearcutReadsBack(mac, o, j);
    LeftClean(mac, o, j);
    TornPiece(mac, o, j, o[j].outcome.kept);
    LinesConcat(Text(mac, o, j), Left(mac, o, j));
    LinksPrefix(mac, Lines(Text(mac, o, j)), Left(mac, o, j));
  }

  lemma LinksPrefix(mac: Mac, lines: seq<string>, x: string)
    requires LinksTo(mac, lines + [x], |lines| + 1)
    ensures LinksTo(mac, lines, |lines|)
    ensures LinkOk(mac, x, |lines| + 1, Expected(mac, lines + [x], |lines|))
  {
    hide LinkOk, Authenticated;
    var longer := lines + [x];
    forall i | 0 <= i < |lines|
      ensures LinkOk(mac, lines[i], i + 1, Expected(mac, lines, i))
    {
      assert longer[i] == lines[i] && Expected(mac, longer, i) == Expected(mac, lines, i);
    }
    assert longer[|lines|] == x;
  }

  lemma TornLineFails(mac: Mac, o: Opening, n: nat, j: nat, f: nat)
    requires n <= |o| && j < n && Accepted(mac, Text(mac, o, n)) && |Shows(mac, o, j)| == f
    requires Lines(Text(mac, o, n)) == Shows(mac, o, j) + [Left(mac, o, j)]
    ensures LinkOk(mac, Left(mac, o, j), f + 1, Expected(mac, Lines(Text(mac, o, n)), f))
  {
    hide Lines, Text, Shows, Left, LinkOk, Expected;
    LinksPrefix(mac, Shows(mac, o, j), Left(mac, o, j));
  }

  lemma {:induction false} ClearcutShort(mac: Mac, o: Opening, j: nat)
    requires j <= |o| && StopsAtFailure(o, j)
    ensures |Shows(mac, o, j)| == FirstFailed(o, j)
  {
    hide ShownOf;
    if j > 0 {
      ClearcutShort(mac, o, j - 1);
    }
  }

  /** When nothing was recorded behind torn bytes, no property of the MAC matters. */
  lemma UngluedAcceptedIff(mac: Mac, o: Opening, n: nat)
    requires n < U64 && Logged(mac, o, n) && !Glued(mac, o, n)
    ensures Accepted(mac, Text(mac, o, n)) <==> Readable(mac, o, n)
  {
    hide Text, Accepted, LineOf, Behind, BodyOf, Readable, Lines, Glued, GoodAttempts, Authenticated;
    if Readable(mac, o, n) {
      ReadableAccepted(mac, o, n);
    } else if Accepted(mac, Text(mac, o, n)) {
      if forall i :: 0 <= i < n ==> !TornBytes(o[i]) {
        ClearcutReadable(mac, o, n);
      } else {
        var j: nat :| j < n && TornBytes(o[j]);
        TornIsLast(mac, o, n, j);
        TornEndReadable(mac, o, n, j);
      }
    }
  }

  /** Nothing was left before torn bytes but whole lines, nor anything behind them. */
  lemma TornIsLast(mac: Mac, o: Opening, n: nat, j: nat)
    requires Logged(mac, o, n) && !Glued(mac, o, n) && j < n && TornBytes(o[j])
    ensures (forall i :: 0 <= i < j ==> Clearcut(o[i])) && Behind(mac, o, j + 1, n) == ""
  {
    hide LineOf, Behind, Left, GoodEvent, Clean, ShownOf;
    LeftClean(mac, o, j);
    forall i | 0 <= i < j
      ensures Clearcut(o[i])
    {
      if TornBytes(o[i]) {
        BehindHolds(mac, o, i + 1, n, j);
      }
    }
  }

  /** The exact condition, for every run of whole, torn and failed attempts and every
      MAC: a readable log is accepted, and no other is unless something was recorded
      behind torn bytes and the text so glued clashes with one the author MACed. */
  lemma LogAcceptedIff(mac: Mac, o: Opening, n: nat)
    requires n < U64 && Logged(mac, o, n)
    ensures Readable(mac, o, n) ==> Accepted(mac, Text(mac, o, n))
    ensures Accepted(mac, Text(mac, o, n)) ==> Readable(mac, o, n) || (Glued(mac, o, n) && Clash(mac, o, n))
  {
    hide Lines, Text, Behind, BodyOf, Accepted, Clash, Readable, LineOf, GoodEvent, Clean, ShownOf, Glued;
    if Readable(mac, o, n) {
      ReadableAccepted(mac, o, n);
    } else if Accepted(mac, Text(mac, o, n)) {
      if !Glued(mac, o, n) {
        UngluedAcceptedIff(mac, o, n);
      } else if !Clash(mac, o, n) {
        AcceptedReadable(mac, o, n);
      }
    }
  }

  // ----------------------------------------------------- a line that is not seen

  /** A write cut behind its tag swallows the line recorded next: the file is
      accepted, for every MAC, and shows one line for the two. */
  lemma LineIsSwallowed(mac: Mac, o: Opening)
    requires |o| == 2 && Logged(mac, o, 2) && o[0].outcome.Torn? && o[1].outcome.Written?
    requires o[0].outcome.kept >= |BodyOf(mac, o, 0)| + 72
    ensures Accepted(mac, Text(mac, o, 2)) && |Lines(Text(mac, o, 2))| == 1
    ensures Authenticated(Lines(Text(mac, o, 2))[0]) == BodyOf(mac, o, 0)
  {
    hide Text, Accepted, GoodEvent, Clean, LineOf, Behind, BodyOf, Left, Lines, Authenticated, ShownOf;
    assert FirstFailed(o, 2) == 0 by { FirstFailedIs(o, 2, 0); }
    var r := Behind(mac, o, 0, 2);
    BehindSplit(mac, o, 0, 2);
    BehindSplit(mac, o, 1, 2);
    NothingLeft(mac, o);
    LeftClean(mac, o, 0);
    LineIsShort(mac, o, 0);
    LineIsShort(mac, o, 1);
    WholeLeft(mac, o, 1);
    assert r == Left(mac, o, 0) + LineOf(mac, o, 1);
    assert r[..|r| - 1] == Left(mac, o, 0) + LineOf(mac, o, 1)[..|LineOf(mac, o, 1)| - 1];
    assert OneChunk(r);
    ReadableAccepted(mac, o, 2);
    LinesAround(mac, o, 2);
    OneLineIff(r);
  }

  lemma NothingLeft(mac: Mac, o: Opening)
    requires |o| == 2
    ensures Behind(mac, o, 2, 2) == ""
  {
  }

  lemma WholeLeft(mac: Mac, o: Opening, i: nat)
    requires i < |o| && GoodEvent(o[i].ev) && o[i].outcome.Written?
    ensures var line := LineOf(mac, o, i);
            Left(mac, o, i) == line && line != "" && line[|line| - 1] == '\n' && '\n' !in line[..|line| - 1]
  {
    hide Body, Shown, BodyOf, Prev;
    ShownOneLine((i + 1) % U64, o[i].ev, Prev(mac, o, i), mac(BodyOf(mac, o, i)), '\n');
    assert LineOf(mac, o, i)[..|LineOf(mac, o, i)| - 1] == ShownOf(mac, o, i);
  }
}
