/** Logs with failed attempts (src/fhsm_audit.c:612, 670-694): an attempt whose MAC
    or write fails has used up its sequence number. */
module AuditFailures {
  import opened CText
  import opened AuditLine
  import opened AuditSearch
  import opened AuditChain
  import opened AuditIntegrity

  /** The attempt was written whole, or left nothing in the file. */
  predicate Clearcut(a: Attempt) { a.outcome.Written? || a.outcome.NoMac? || a.outcome == Torn(0) }

  predicate GoodAttempts(o: Opening, n: nat)
    requires n <= |o|
  {
    forall i :: 0 <= i < n ==> GoodEvent(o[i].ev) && Clean(o[i].ev)
  }

  /** The lines of the attempts written whole. */
  function Shows(mac: Mac, o: Opening, n: nat): (r: seq<string>)
    requires n <= |o|
    ensures |r| <= n
  {
    if n == 0 then []
    else if o[n - 1].outcome.Written? then Shows(mac, o, n - 1) + [ShownOf(mac, o, n - 1)]
    else Shows(mac, o, n - 1)
  }

  /** Only those lines are read back. */
  lemma {:induction false} ClearcutReadsBack(mac: Mac, o: Opening, n: nat)
    requires n <= |o| && GoodAttempts(o, n) && forall i :: 0 <= i < n ==> Clearcut(o[i])
    ensures Lines(Text(mac, o, n)) == Shows(mac, o, n)
    ensures Text(mac, o, n) == "" || Text(mac, o, n)[|Text(mac, o, n)| - 1] == '\n'
  {
    hide Lines, LineOf, ShownOf, GoodEvent, Clean;
    if n == 0 {
      NoLines();
    } else {
      ClearcutReadsBack(mac, o, n - 1);
      var front, line := Text(mac, o, n - 1), LineOf(mac, o, n - 1);
      if o[n - 1].outcome.Written? {
        LineOfReadsBack(mac, o, n - 1);
        LinesConcat(front, line);
      } else {
        assert front + "" == front;
      }
    }
  }

  /** A written line stands at the number of those written before it. */
  lemma {:induction false} ShowsAt(mac: Mac, o: Opening, n: nat, j: nat)
    requires j < n <= |o| && o[j].outcome.Written?
    ensures |Shows(mac, o, j)| < |Shows(mac, o, n)| && Shows(mac, o, n)[|Shows(mac, o, j)|] == ShownOf(mac, o, j)
    decreases n
  {
    hide ShownOf;
    if j < n - 1 {
      ShowsAt(mac, o, n - 1, j);
    }
  }

  lemma {:induction false} FailureShortens(mac: Mac, o: Opening, j: nat, i: nat)
    requires i < j <= |o| && !o[i].outcome.Written?
    ensures |Shows(mac, o, j)| < j
    decreases j
  {
    hide ShownOf;
    if i < j - 1 {
      FailureShortens(mac, o, j - 1, i);
    }
  }

  lemma SeqOfShown(mac: Mac, o: Opening, j: nat)
    requires j < |o| && j + 1 < U64
    ensures SeqField(ShownOf(mac, o, j)) == Some(j + 1)
  {
    hide Body, StrToUll, SuffixSegs, Join, StrStr;
    SeqLands(j + 1, o[j].ev, Prev(mac, o, j), Join(SuffixSegs(mac(BodyOf(mac, o, j)))));
  }

  /** No attempt written whole comes after a failed one. */
  predicate StopsAtFailure(o: Opening, n: nat)
    requires n <= |o|
  {
    forall i, j :: 0 <= i < j < n && o[j].outcome.Written? ==> o[i].outcome.Written?
  }

  /** The leading attempts that were written whole. */
  lemma {:induction false} LeadingRun(mac: Mac, o: Opening, n: nat) returns (m: nat)
    requires n <= |o| && StopsAtFailure(o, n) && forall i :: 0 <= i < n ==> Clearcut(o[i])
    ensures m <= n && (forall i :: 0 <= i < m ==> o[i].outcome.Written?) && Text(mac, o, n) == Text(mac, o, m)
  {
    hide LineOf;
    m := n;
    if n > 0 && !o[n - 1].outcome.Written? {
      m := LeadingRun(mac, o, n - 1);
      assert Text(mac, o, n - 1) + "" == Text(mac, o, n - 1);
    } else if n > 0 {
      assert forall i :: 0 <= i < n - 1 ==> o[i].outcome.Written?;
    }
  }

  /** When failures leave no bytes behind, a log is accepted if and only if nothing
      was written after one: the number a failed attempt used up is missing. */
  lemma FailuresAcceptedIff(mac: Mac, o: Opening, n: nat)
    requires n <= |o| && n < U64 && GoodAttempts(o, n) && forall i :: 0 <= i < n ==> Clearcut(o[i])
    ensures Accepted(mac, Text(mac, o, n)) <==> StopsAtFailure(o, n)
  {
    hide Lines, LineOf, ShownOf, GoodEvent, Clean, Text, Shows, Recorded, PrevField, SeqField, Authenticated;
    if StopsAtFailure(o, n) {
      var m := LeadingRun(mac, o, n);
      HonestLogAccepted(mac, o, m);
    } else {
      var i: nat, j: nat :| i < j < n && o[j].outcome.Written? && !o[i].outcome.Written?;
      ClearcutReadsBack(mac, o, n);
      ShowsAt(mac, o, n, j);
      FailureShortens(mac, o, j, i);
      SeqOfShown(mac, o, j);
      var k := |Shows(mac, o, j)|;
      assert !LinkOk(mac, Shows(mac, o, n)[k], k + 1, Expected(mac, Shows(mac, o, n), k));
    }
  }

  // ------------------------------------------------------- a torn last line

  lemma {:induction false} PieceChunk(piece: string, cap: nat)
    requires 1 <= |piece| <= cap && '\n' !in piece
    ensures ChunkLen(piece, cap) == |piece|
    decreases |piece|
  {
    if |piece| > 1 {
      assert piece[1..] != "" && '\n' !in piece[1..];
      PieceChunk(piece[1..], cap - 1);
    }
  }

  lemma PieceReadsBack(piece: string)
    requires 1 <= |piece| <= READ_CAP && '\n' !in piece && NUL !in piece
    ensures Lines(piece) == [piece]
  {
    hide ChunkLen;
    PieceChunk(piece, READ_CAP);
    assert piece[..|piece|] == piece && piece[|piece|..] == "";
    NoChunks();
    assert Chunks(piece, READ_CAP) == [piece];
    assert Seen(piece) == piece;
  }

  /** The verifier's view of the first `kept` bytes of a line: whole as far as it
      looks, or without a readable tag. */
  lemma PieceLinks(mac: Mac, n: nat, ev: Event, prev: Tag, kept: nat)
    requires GoodEvent(ev) && Clean(ev)
    requires var body := Body(n % U64, ev, prev); kept <= |Shown(n % U64, ev, prev, mac(body))|
    ensures var body := Body(n % U64, ev, prev);
            var piece := Shown(n % U64, ev, prev, mac(body))[..kept];
            LinkOk(mac, piece, n, prev) <==> kept >= |body| + 72
  {
    hide Body, SuffixSegs, Join, UnhexAt, StrToUll, Dec, Field, StrStr, Shown;
    var body := Body(n % U64, ev, prev);
    var shown := Shown(n % U64, ev, prev, mac(body));
    var piece := shown[..kept];
    HmacLands(n % U64, ev, prev, mac(body));
    FieldShape("hmac");
    ShownBegins(n % U64, ev, prev, mac(body));
    if kept >= |body| + 72 {
      var rest := piece[|body|..];
      assert piece == body + rest;
      TagWithin(shown, kept, |body|, mac(body));
      assert piece[..|body|] == body;
      PrevLands(n % U64, ev, prev);
      PrevFieldSurvives(body, rest);
      SeqLands(n % U64, ev, prev, rest);
    } else {
      NoTagWithin(shown, kept, |body|);
    }
  }

  lemma ShownBegins(seqno: nat, ev: Event, prev: Tag, tag: Tag)
    ensures var body, shown := Body(seqno, ev, prev), Shown(seqno, ev, prev, tag);
            |body| <= |shown| && shown[..|body|] == body
  {
    hide Body, Join;
  }

  /** A prefix that holds the field and its 64 digits reads as the whole line does. */
  lemma TagWithin(shown: string, kept: nat, at: nat, tag: Tag)
    requires at + 72 <= kept <= |shown| && StrStr(shown, Field("hmac")) == at && UnhexAt(shown, at + 8) == Some(tag)
    requires |Field("hmac")| == 8
    ensures StrStr(shown[..kept], Field("hmac")) == at && UnhexAt(shown[..kept], at + 8) == Some(tag)
  {
    hide StrStr, Field, UnhexAt;
    StrStrCut(shown, Field("hmac"), kept);
    UnhexCut(shown, kept, at + 8);
  }

  /** A shorter one holds no readable tag. */
  lemma NoTagWithin(shown: string, kept: nat, at: nat)
    requires kept <= |shown| && kept < at + 72 && StrStr(shown, Field("hmac")) == at && |Field("hmac")| == 8
    ensures Recorded(shown[..kept]).None?
  {
    hide StrStr, Field;
    var piece := shown[..kept];
    var h := StrStr(piece, Field("hmac"));
    if h >= 0 {
      assert piece[h..h + 8] == shown[h..h + 8];
      assert OccursAt(shown, Field("hmac"), h);
      assert h >= at;
      assert !HexAt(piece, h + 8);
    }
  }

  /** When the last write was cut short, the log is accepted if and only if it left
      nothing, or everything up to the end of its tag. */
  lemma TornEndAcceptedIff(mac: Mac, o: Opening, n: nat)
    requires n < |o| && AllWritten(o, n) && GoodAttempts(o, n + 1)
    requires o[n].outcome.Torn? && o[n].outcome.kept < |LineOf(mac, o, n)|
    ensures var kept := o[n].outcome.kept;
            Accepted(mac, Text(mac, o, n + 1)) <==> kept == 0 || kept >= |BodyOf(mac, o, n)| + 72
  {
    hide Lines, LineOf, Text, GoodEvent, Clean, BodyOf, LinkOk, Prev, ShownOf, Authenticated;
    var kept, front := o[n].outcome.kept, Text(mac, o, n);
    var piece := LineOf(mac, o, n)[..kept];
    TextReadsBack(mac, o, n);
    HonestLogAccepted(mac, o, n);
    assert Text(mac, o, n + 1) == front + piece by { TornText(mac, o, n); }
    if kept == 0 {
      assert front + piece == front;
    } else {
      TornPiece(mac, o, n, kept);
      assert n == 0 ==> front == "" by { NoText(mac, o); }
      LinesConcat(front, piece);
      TornLinks(mac, o, n, Lines(front), piece);
    }
  }

  lemma NoText(mac: Mac, o: Opening)
    ensures Text(mac, o, 0) == ""
  {
  }

  lemma TornText(mac: Mac, o: Opening, n: nat)
    requires n < |o| && o[n].outcome.Torn? && o[n].outcome.kept < |LineOf(mac, o, n)|
    ensures Text(mac, o, n + 1) == Text(mac, o, n) + LineOf(mac, o, n)[..o[n].outcome.kept]
  {
    hide LineOf;
  }

  lemma TornPiece(mac: Mac, o: Opening, n: nat, kept: nat)
    requires n < |o| && GoodEvent(o[n].ev) && 0 < kept < |LineOf(mac, o, n)|
    ensures kept <= |ShownOf(mac, o, n)| && LineOf(mac, o, n)[..kept] == ShownOf(mac, o, n)[..kept]
    ensures Lines(LineOf(mac, o, n)[..kept]) == [LineOf(mac, o, n)[..kept]]
  {
    hide Body, Shown, Lines, BodyOf, Prev;
    var tag, prev := mac(BodyOf(mac, o, n)), Prev(mac, o, n);
    ShownOneLine((n + 1) % U64, o[n].ev, prev, tag, '\n');
    ShownOneLine((n + 1) % U64, o[n].ev, prev, tag, NUL);
    LineFits((n + 1) % U64, o[n].ev, prev, tag);
    var line, shown := LineOf(mac, o, n), ShownOf(mac, o, n);
    assert line == shown + "\n";
    assert line[..kept] == shown[..kept];
    PieceReadsBack(shown[..kept]);
  }

  lemma TornLinks(mac: Mac, o: Opening, n: nat, lines: seq<string>, piece: string)
    requires n < |o| && AllWritten(o, n) && GoodAttempts(o, n + 1) && |lines| == n && LinksTo(mac, lines, n)
    requires forall i :: 0 <= i < n ==> lines[i] == ShownOf(mac, o, i)
    requires 0 < |piece| <= |ShownOf(mac, o, n)| && piece == ShownOf(mac, o, n)[..|piece|]
    ensures LinksTo(mac, lines + [piece], n + 1) <==> |piece| >= |BodyOf(mac, o, n)| + 72
  {
    hide Body, Shown, LinkOk, Authenticated, GoodEvent, Clean;
    LinksKept(mac, lines, piece);
    assert Expected(mac, lines, n) == Prev(mac, o, n) by {
      if n > 0 {
        HonestLink(mac, n, o[n - 1].ev, Prev(mac, o, n - 1));
      }
    }
    PieceLinks(mac, n + 1, o[n].ev, Prev(mac, o, n), |piece|);
    assert (lines + [piece])[n] == piece;
    if LinkOk(mac, piece, n + 1, Prev(mac, o, n)) {
      LinksOneMore(mac, lines + [piece], n);
    }
  }
}
