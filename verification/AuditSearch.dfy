/** Where the verifier's substring searches land in a line the writer built
    (src/fhsm_audit.c:645-679 against 810-812). */
module AuditSearch {
  import opened CText
  import opened AuditLine

  // ---------------------------------------------- quote-separated segments

  predicate QuoteFree(segs: seq<string>) {
    forall k :: 0 <= k < |segs| ==> '"' !in segs[k]
  }

  /** `"w":"`, the shape of both tag fields. */
  function Field(w: string): string { "\"" + w + "\":\"" }

  /** Segment `k` is the field name `w` followed by a string value. */
  predicate Hit(segs: seq<string>, w: string, k: int) {
    1 <= k && k + 2 < |segs| && segs[k] == w && segs[k + 1] == ":"
  }

  /** Text that opens with a quote-free word and a quotation mark opens with that segment. */
  lemma FirstSegment(segs: seq<string>, w: string)
    requires segs != [] && QuoteFree(segs) && '"' !in w
    requires |w| + 1 <= |Join(segs)| && Join(segs)[..|w| + 1] == w + "\""
    ensures |segs| >= 2 && segs[0] == w
  {
    var j := Join(segs);
    assert j[|w|] == (w + "\"")[|w|] == '"';
    assert forall i :: 0 <= i < |w| ==> j[i] == (w + "\"")[i] == w[i];
    assert j[|w|] !in segs[0];
    assert |segs| > 1;
    assert j[|segs[0]|] == '"';
    assert |w| == |segs[0]|;
    assert segs[0] == w;
  }

  lemma FieldShape(w: string)
    ensures |Field(w)| == |w| + 4
    ensures Field(w)[0] == '"'
    ensures Field(w)[1..] == (w + "\"") + ":\""
  {
  }

  /** An occurrence at the first quotation mark is a hit at segment 1. */
  lemma OccursAtFirstQuote(segs: seq<string>, w: string)
    requires |segs| >= 2 && QuoteFree(segs) && '"' !in w
    ensures OccursAt(Join(segs), Field(w), |segs[0]|) <==> Hit(segs, w, 1)
  {
    hide Join, OccursAt, QuoteFree, Field;
    if OccursAt(Join(segs), Field(w), |segs[0]|) {
      OccurrenceHits(segs, w);
    }
    if Hit(segs, w, 1) {
      HitOccurs(segs, w);
    }
  }

  lemma OccurrenceHits(segs: seq<string>, w: string)
    requires |segs| >= 2 && QuoteFree(segs) && '"' !in w && OccursAt(Join(segs), Field(w), |segs[0]|)
    ensures Hit(segs, w, 1)
  {
    var j, rest, n := Join(segs), Join(segs[1..]), |segs[0]|;
    FieldShape(w);
    assert j == segs[0] + "\"" + rest;
    assert rest[..|w| + 3] == Field(w)[1..] by {
      assert j[n..n + |w| + 4][1..] == rest[..|w| + 3];
    }
    assert rest[..|w| + 1] == rest[..|w| + 3][..|w| + 1] == w + "\"";
    FirstSegment(segs[1..], w);
    var rest2 := Join(segs[2..]);
    assert segs[1..][1..] == segs[2..];
    assert rest == w + "\"" + rest2;
    assert rest2[..2] == rest[..|w| + 3][|w| + 1..] == ":\"";
    FirstSegment(segs[2..], ":");
  }

  lemma HitOccurs(segs: seq<string>, w: string)
    requires Hit(segs, w, 1)
    ensures OccursAt(Join(segs), Field(w), |segs[0]|)
  {
    var j, rest, n := Join(segs), Join(segs[1..]), |segs[0]|;
    FieldShape(w);
    assert j == segs[0] + "\"" + rest;
    assert segs[1..][1..] == segs[2..] && segs[2..][1..] == segs[3..];
    var back := Join(segs[2..]);
    assert back == ":" + "\"" + Join(segs[3..]);
    assert rest == w + "\"" + back;
    assert rest[..|w| + 3] == Field(w)[1..];
    assert j[n..n + |w| + 4] == [j[n]] + j[n + 1..][..|w| + 3];
    assert j[n..n + |w| + 4] == Field(w);
  }

  /** Occurrences of a field are exactly the hits among the segments. */
  lemma {:induction false} LandsOnSegment(segs: seq<string>, w: string, k: nat)
    requires QuoteFree(segs) && '"' !in w && Hit(segs, w, k)
    requires forall m :: 1 <= m < k ==> !Hit(segs, w, m)
    ensures StrStr(Join(segs), Field(w)) == |Join(segs[..k])|
    decreases |segs|
  {
    hide StrStr, Field;
    var j, n := Join(segs), |segs[0]|;
    var rest := Join(segs[1..]);
    FieldShape(w);
    assert j == segs[0] + "\"" + rest;
    OccursAtFirstQuote(segs, w);
    forall i | 0 <= i < n
      ensures !OccursAt(j, Field(w), i)
    {
      assert j[i] == segs[0][i] && j[i] in segs[0];
    }
    if k == 1 {
      assert segs[..1] == [segs[0]];
      StrStrLands(j, Field(w), n);
    } else {
      var tail := segs[1..];
      assert Hit(tail, w, k - 1);
      forall m | 1 <= m < k - 1
        ensures !Hit(tail, w, m)
      {
        assert !Hit(segs, w, m + 1);
      }
      LandsOnSegment(tail, w, k - 1);
      var at := StrStr(rest, Field(w));
      assert !Hit(segs, w, 1);
      ShiftLanding(segs[0] + "\"", rest, Field(w), at);
      assert segs[..k][1..] == tail[..k - 1];
    }
  }

  /** With no occurrence starting in front, the search lands where it does behind. */
  lemma ShiftLanding(front: string, back: string, pat: string, at: nat)
    requires StrStr(back, pat) == at
    requires forall i :: 0 <= i < |front| ==> !OccursAt(front + back, pat, i)
    ensures StrStr(front + back, pat) == |front| + at
  {
    hide StrStr;
    var s := front + back;
    assert OccursAt(back, pat, at);
    assert s[|front| + at..|front| + at + |pat|] == back[at..at + |pat|];
    forall i | 0 <= i < |front| + at
      ensures !OccursAt(s, pat, i)
    {
      if i >= |front| && i + |pat| <= |s| {
        assert s[i..i + |pat|] == back[i - |front|..i - |front| + |pat|];
        assert !OccursAt(back, pat, i - |front|);
      }
    }
    StrStrLands(s, pat, |front| + at);
  }

  // ------------------------------------------------------------------- glue

  /** The segments of a concatenation: the last of `a` runs into the first of `b`. */
  function Glue(a: seq<string>, b: seq<string>): (r: seq<string>)
    requires a != [] && b != []
    ensures |r| == |a| + |b| - 1
  {
    a[..|a| - 1] + [a[|a| - 1] + b[0]] + b[1..]
  }

  lemma {:induction false} JoinGlue(a: seq<string>, b: seq<string>)
    requires a != [] && b != []
    ensures Join(Glue(a, b)) == Join(a) + Join(b)
    decreases |a|
  {
    if |a| == 1 {
      assert Glue(a, b)[1..] == b[1..];
    } else {
      assert Glue(a, b)[0] == a[0];
      assert Glue(a, b)[1..] == Glue(a[1..], b);
      JoinGlue(a[1..], b);
    }
  }

  lemma GlueQuoteFree(a: seq<string>, b: seq<string>)
    requires a != [] && b != [] && QuoteFree(a) && QuoteFree(b)
    ensures QuoteFree(Glue(a, b))
  {
  }

  // ------------------------------------------------- the segments of a line

  /** No key contains `c`. Keys are printed as they come, values are filtered. */
  predicate KeysLack(pairs: seq<Pair>, c: char) {
    forall m :: 0 <= m < |pairs| ==> c !in pairs[m].key
  }

  /** The segments of the unlimited parameter text: four per pair. */
  function RawSegs(pairs: seq<Pair>): (r: seq<string>)
    ensures |r| == 4 * |pairs| + 1
  {
    var n := |pairs|;
    seq(4 * n + 1, j requires 0 <= j < 4 * n + 1 =>
      if j % 4 == 1 then pairs[j / 4].key
      else if j % 4 == 2 then ":"
      else if j % 4 == 3 then Filtered(pairs[j / 4])
      else if j == 0 then "{" else if j == 4 * n then "" else ",")
  }

  function EntrySegs(p: Pair, first: bool): seq<string> {
    [if first then "" else ",", p.key, ":", Filtered(p), ""]
  }

  lemma JoinEntry(p: Pair, first: bool)
    ensures Join(EntrySegs(p, first)) == Entry(p.key, Filtered(p), first)
  {
    var e, v := EntrySegs(p, first), Filtered(p);
    JoinThree(e);
    assert e[3..] == [v, ""] && e[3..][1..] == [""];
    assert Join(e[3..]) == v + "\"" + "";
    EntryText(e[0], p.key, v);
  }

  lemma EntryText(comma: string, key: string, v: string)
    ensures comma + "\"" + (key + "\"" + (":" + "\"" + (v + "\"" + ""))) == comma + "\"" + key + "\":\"" + v + "\""
  {
  }

  lemma JoinThree(h: seq<string>)
    requires |h| > 3
    ensures Join(h) == h[0] + "\"" + (h[1] + "\"" + (h[2] + "\"" + Join(h[3..])))
  {
    assert h[1..][1..] == h[2..] && h[2..][1..] == h[3..];
    assert Join(h[2..]) == h[2] + "\"" + Join(h[3..]);
    assert Join(h[1..]) == h[1] + "\"" + Join(h[2..]);
  }

  lemma RawStep(pairs: seq<Pair>)
    requires pairs != []
    ensures RawSegs(pairs) ==
            Glue(RawSegs(pairs[..|pairs| - 1]), EntrySegs(pairs[|pairs| - 1], |pairs| == 1))
  {
    hide Filtered, Glue;
    var n := |pairs|;
    var a, b := RawSegs(pairs[..n - 1]), EntrySegs(pairs[n - 1], n == 1);
    var g := Glue(a, b);
    GlueAt(a, b);
    forall j | 0 <= j < 4 * n + 1
      ensures RawSegs(pairs)[j] == g[j]
    {
      if j < 4 * n - 4 {
        assert g[j] == a[j];
      } else if j == 4 * n - 4 {
        assert g[j] == a[j] + b[0];
      } else {
        assert g[j] == b[j - (4 * n - 4)];
      }
    }
  }

  lemma {:induction false} JoinRaw(pairs: seq<Pair>)
    ensures Join(RawSegs(pairs)) == Unbounded(pairs)
  {
    var n := |pairs|;
    if n == 0 {
      assert RawSegs(pairs) == ["{"];
    } else {
      var front, p := pairs[..n - 1], pairs[n - 1];
      JoinRaw(front);
      JoinEntry(p, n == 1);
      JoinGlue(RawSegs(front), EntrySegs(p, n == 1));
      RawStep(pairs);
    }
  }

  /** The pairs that are actually printed. */
  function Printed(pairs: seq<Pair>): seq<Pair> {
    if Overflows(pairs) then [] else pairs
  }

  function Closer(pairs: seq<Pair>): string {
    if Overflows(pairs) || |Unbounded(pairs)| < PARAMS_SIZE - 1 then "}" else ""
  }

  function ParamSegs(pairs: seq<Pair>): (r: seq<string>)
    ensures |r| == 4 * |Printed(pairs)| + 1
  {
    Glue(RawSegs(Printed(pairs)), [Closer(pairs)])
  }

  lemma JoinParams(pairs: seq<Pair>)
    ensures Join(ParamSegs(pairs)) == Params(pairs)
  {
    JoinRaw(Printed(pairs));
    JoinGlue(RawSegs(Printed(pairs)), [Closer(pairs)]);
  }

  function BodySegs(seqno: nat, ev: Event, prev: Tag): (r: seq<string>)
    ensures |r| == 4 * |Printed(ev.pairs)| + 33
  {
    Glue(Glue(HeadSegs(seqno, ev), ParamSegs(ev.pairs)), TailSegs(prev))
  }

  lemma JoinBody(seqno: nat, ev: Event, prev: Tag)
    ensures Join(BodySegs(seqno, ev, prev)) == Body(seqno, ev, prev)
  {
    JoinParams(ev.pairs);
    JoinGlue(HeadSegs(seqno, ev), ParamSegs(ev.pairs));
    JoinGlue(Glue(HeadSegs(seqno, ev), ParamSegs(ev.pairs)), TailSegs(prev));
  }

  predicate AllSafe(segs: seq<string>) {
    forall k :: 0 <= k < |segs| ==> Safe(segs[k])
  }

  /** No segment contains `c`. */
  predicate Lack(segs: seq<string>, c: char) {
    forall k :: 0 <= k < |segs| ==> c !in segs[k]
  }

  lemma SafeLacks(segs: seq<string>, c: char)
    requires AllSafe(segs) && !SafeChar(c)
    ensures Lack(segs, c)
  {
    forall k | 0 <= k < |segs|
      ensures c !in segs[k]
    {
      assert Safe(segs[k]);
    }
  }

  lemma GlueLacks(a: seq<string>, b: seq<string>, c: char)
    requires a != [] && b != [] && Lack(a, c) && Lack(b, c)
    ensures Lack(Glue(a, b), c)
  {
    forall k | 0 <= k < |Glue(a, b)|
      ensures c !in Glue(a, b)[k]
    {
      if k == |a| - 1 {
        assert c !in a[k] && c !in b[0];
      }
    }
  }

  /** Joining adds no character but the quotation mark, and loses none. */
  lemma {:induction false} JoinHas(segs: seq<string>, c: char)
    requires segs != [] && c != '"'
    ensures c in Join(segs) <==> !Lack(segs, c)
  {
    if |segs| > 1 {
      assert forall k :: 0 <= k < |segs[1..]| ==> segs[1..][k] == segs[k + 1];
      JoinHas(segs[1..], c);
      assert Lack(segs, c) <==> c !in segs[0] && Lack(segs[1..], c) by {
        assert forall k :: 1 <= k < |segs| ==> segs[k] == segs[1..][k - 1];
      }
    }
  }

  lemma DecIntSafe(i: int)
    ensures Safe(":" + DecInt(i) + ",")
  {
    var d := Dec(if i < 0 then -i else i);
    assert forall k :: 0 <= k < |d| ==> d[k] in d;
  }

  lemma WordsSafe()
    ensures Safe("{") && Safe(":") && Safe(",") && Safe("seq") && Safe("ts") && Safe("event") && Safe("slot")
    ensures Safe("session") && Safe("role") && Safe("actor") && Safe("result") && Safe("rv") && Safe("params")
    ensures Safe("SO") && Safe("USER") && Safe("NONE") && Safe("OK") && Safe("FAIL")
  {
  }

  lemma HeadSafe(seqno: nat, ev: Event)
    requires InRange(ev)
    ensures AllSafe(HeadSegs(seqno, ev))
  {
    hide Safe, Dec;
    WordsSafe();
    DecIntSafe(seqno);
    DecIntSafe(ev.ts);
    DecIntSafe(ev.slot);
    DecIntSafe(ev.session);
    DecIntSafe(ev.rv);
  }

  lemma RawLacks(pairs: seq<Pair>, c: char)
    requires KeysLack(pairs, c) && !SafeChar(c)
    ensures Lack(RawSegs(pairs), c)
  {
    forall j | 0 <= j < 4 * |pairs| + 1
      ensures c !in RawSegs(pairs)[j]
    {
      if j < 4 * |pairs| {
        assert Safe(Filtered(pairs[j / 4]));
      }
    }
  }

  lemma TailSafe(prev: Tag)
    ensures AllSafe(TailSegs(prev))
  {
    HexSafe(prev);
  }

  lemma BodyLacks(seqno: nat, ev: Event, prev: Tag, c: char)
    requires InRange(ev) && KeysLack(Printed(ev.pairs), c) && !SafeChar(c)
    ensures Lack(BodySegs(seqno, ev, prev), c)
  {
    hide HeadSegs, TailSegs, RawSegs, Glue, Printed, Lack;
    var h, r, t := HeadSegs(seqno, ev), RawSegs(Printed(ev.pairs)), TailSegs(prev);
    HeadSafe(seqno, ev);
    SafeLacks(h, c);
    RawLacks(Printed(ev.pairs), c);
    SafeLacks([Closer(ev.pairs)], c);
    GlueLacks(r, [Closer(ev.pairs)], c);
    GlueLacks(h, ParamSegs(ev.pairs), c);
    TailSafe(prev);
    SafeLacks(t, c);
    GlueLacks(Glue(h, ParamSegs(ev.pairs)), t, c);
  }

  lemma BodyQuoteFree(seqno: nat, ev: Event, prev: Tag)
    requires InRange(ev) && KeysLack(Printed(ev.pairs), '"')
    ensures QuoteFree(BodySegs(seqno, ev, prev))
  {
    BodyLacks(seqno, ev, prev, '"');
  }

  /** A character outside the safe ones, such as one that ends a line or a C string,
      is in a line if and only if a printed key brings it there. */
  lemma ShownOneLine(seqno: nat, ev: Event, prev: Tag, tag: Tag, c: char)
    requires InRange(ev) && !SafeChar(c) && c != '"'
    ensures c in Shown(seqno, ev, prev, tag) <==> !KeysLack(Printed(ev.pairs), c)
  {
    hide HeadSegs, TailSegs, SuffixSegs, Join, Glue, BodySegs, Printed;
    var b := BodySegs(seqno, ev, prev);
    JoinBody(seqno, ev, prev);
    JoinHas(b, c);
    SuffixSafe(tag);
    SafeLacks(SuffixSegs(tag), c);
    JoinHas(SuffixSegs(tag), c);
    if KeysLack(Printed(ev.pairs), c) {
      BodyLacks(seqno, ev, prev, c);
    } else {
      var j: nat :| j < |Printed(ev.pairs)| && c in Printed(ev.pairs)[j].key;
      BodySegAt(seqno, ev, prev);
      KeySegment(Printed(ev.pairs), j);
      assert b[28 + (4 * j + 1)] == Printed(ev.pairs)[j].key;
    }
  }

  lemma KeySegment(pairs: seq<Pair>, j: nat)
    requires j < |pairs|
    ensures RawSegs(pairs)[4 * j + 1] == pairs[j].key
  {
  }

  lemma SuffixSafe(tag: Tag)
    ensures AllSafe(SuffixSegs(tag))
  {
    HexSafe(tag);
  }

  /** Where each segment of a body comes from, `n` being the number of printed pairs. */
  lemma BodySegAt(seqno: nat, ev: Event, prev: Tag)
    ensures var b, n := BodySegs(seqno, ev, prev), |Printed(ev.pairs)|;
            && (forall j :: 0 <= j < 28 ==> b[j] == HeadSegs(seqno, ev)[j])
            && b[28] != "" && b[28][0] == ':' && |b[28]| >= 2
            && (forall m :: 0 < m < 4 * n ==> b[28 + m] == RawSegs(Printed(ev.pairs))[m])
            && (n > 0 ==> b[28 + 4 * n] == Closer(ev.pairs) + ",")
            && b[29 + 4 * n] == "prev_hmac" && b[30 + 4 * n] == ":"
            && b[31 + 4 * n] == Hex(prev) && b[32 + 4 * n] == ","
  {
    hide HeadSegs, Join, Hex, Glue, RawSegs, Printed, Closer;
    var b, n, t := BodySegs(seqno, ev, prev), |Printed(ev.pairs)|, TailSegs(prev);
    ThreeGlued(HeadSegs(seqno, ev), RawSegs(Printed(ev.pairs)), Closer(ev.pairs), t);
    HeadFacts(seqno, ev);
    RawEnds(Printed(ev.pairs));
    assert b[28 + 4 * n + 1] == t[1] && b[28 + 4 * n + 2] == t[2];
    assert b[28 + 4 * n + 3] == t[3] && b[28 + 4 * n + 4] == t[4];
    assert "" + Closer(ev.pairs) == Closer(ev.pairs);
  }

  lemma RawEnds(pairs: seq<Pair>)
    ensures RawSegs(pairs)[0] == "{" && (pairs != [] ==> RawSegs(pairs)[4 * |pairs|] == "")
  {
  }

  /** Where the pieces of a glued line stand. */
  lemma ThreeGlued(h: seq<string>, r: seq<string>, c: string, t: seq<string>)
    requires h != [] && r != [] && t != []
    ensures var b, k, n := Glue(Glue(h, Glue(r, [c])), t), |h| - 1, |r| - 1;
            && (forall j :: 0 <= j < k ==> b[j] == h[j])
            && (n > 0 ==> b[k] == h[k] + r[0] && b[k + n] == r[n] + c + t[0])
            && (n == 0 ==> b[k] == h[k] + (r[0] + c) + t[0])
            && (forall m :: 0 < m < n ==> b[k + m] == r[m])
            && (forall m :: 0 < m < |t| ==> b[k + n + m] == t[m])
  {
    hide Glue;
    var p := Glue(r, [c]);
    GlueAt(r, [c]);
    GlueAt(h, p);
    GlueAt(Glue(h, p), t);
  }

  lemma HeadFacts(seqno: nat, ev: Event)
    ensures var h := HeadSegs(seqno, ev);
            h[0] == "{" && h[1] == "seq" && h[2] == ":" + Dec(seqno) + "," && h[28] == ":"
  {
    hide Dec, DecInt;
  }

  lemma GlueAt(a: seq<string>, b: seq<string>)
    requires a != [] && b != []
    ensures forall j :: 0 <= j < |a| - 1 ==> Glue(a, b)[j] == a[j]
    ensures Glue(a, b)[|a| - 1] == a[|a| - 1] + b[0]
    ensures forall j :: |a| <= j < |a| + |b| - 1 ==> Glue(a, b)[j] == b[j - (|a| - 1)]
  {
  }

  predicate TagName(w: string) { w == "hmac" || w == "prev_hmac" }

  /** No segment of the head but the two free texts starts like a tag name. */
  lemma HeadStarts(seqno: nat, ev: Event)
    ensures forall j :: 1 <= j < 27 && j != 7 && j != 19 ==>
              HeadSegs(seqno, ev)[j] != "" && HeadSegs(seqno, ev)[j][0] != 'h' && HeadSegs(seqno, ev)[j][0] != 'p'
    ensures HeadSegs(seqno, ev)[8] == "," && HeadSegs(seqno, ev)[20] == ","
  {
    hide Dec, DecInt;
  }

  lemma HeadHasNoTag(seqno: nat, ev: Event, w: string, j: nat)
    requires TagName(w) && 1 <= j < 27
    ensures !(HeadSegs(seqno, ev)[j] == w && HeadSegs(seqno, ev)[j + 1] == ":")
  {
    hide HeadSegs;
    HeadStarts(seqno, ev);
    assert w[0] == 'h' || w[0] == 'p';
    assert ","[0] != ":"[0];
  }

  /** The shape every body has: no tag field in the head, then the pairs, then `prev_hmac`. */
  predicate Shaped(b: seq<string>, pairs: seq<Pair>, prev: Tag) {
    var n := |pairs|;
    && |b| == 4 * n + 33
    && (forall j :: 1 <= j <= 28 ==> !(TagName(b[j]) && b[j + 1] == ":"))
    && (forall m :: 0 <= m < n ==> PairAt(b, pairs[m], 29 + 4 * m))
    && b[29 + 4 * n] == "prev_hmac" && b[30 + 4 * n] == ":"
    && b[31 + 4 * n] == Hex(prev) && b[32 + 4 * n] == ","
  }

  predicate PairAt(b: seq<string>, p: Pair, j: nat) {
    && j + 3 < |b|
    && b[j] == p.key && b[j + 1] == ":" && b[j + 2] == Filtered(p)
    && b[j + 3] != ":" && !TagName(b[j + 3])
  }

  lemma PairAtRaw(b: seq<string>, pairs: seq<Pair>, closer: string, m: nat)
    requires m < |pairs| && |b| > 32 + 4 * |pairs| && (closer == "" || closer == "}")
    requires forall i :: 0 < i < 4 * |pairs| ==> b[28 + i] == RawSegs(pairs)[i]
    requires b[28 + 4 * |pairs|] == closer + ","
    ensures PairAt(b, pairs[m], 29 + 4 * m)
  {
    var r := RawSegs(pairs);
    assert b[28 + (4 * m + 1)] == r[4 * m + 1];
    assert b[28 + (4 * m + 2)] == r[4 * m + 2];
    assert b[28 + (4 * m + 3)] == r[4 * m + 3];
    assert m + 1 < |pairs| ==> b[28 + (4 * m + 4)] == r[4 * m + 4] == ",";
    var c := b[32 + 4 * m];
    assert c == "," || c == closer + ",";
    assert c[0] == ',' || c[0] == '}';
  }

  lemma CloserIs(pairs: seq<Pair>)
    ensures Closer(pairs) == "" || Closer(pairs) == "}"
  {
  }

  lemma HeadRegion(seqno: nat, ev: Event, prev: Tag, j: nat)
    requires 1 <= j <= 28
    ensures var b := BodySegs(seqno, ev, prev); !(TagName(b[j]) && b[j + 1] == ":")
  {
    hide HeadSegs, TailSegs, BodySegs, RawSegs, Printed, Closer, Hex;
    BodySegAt(seqno, ev, prev);
    if j < 27 {
      HeadHasNoTag(seqno, ev, "hmac", j);
      HeadHasNoTag(seqno, ev, "prev_hmac", j);
    }
  }

  lemma PairRegion(seqno: nat, ev: Event, prev: Tag, m: nat)
    requires m < |Printed(ev.pairs)|
    ensures PairAt(BodySegs(seqno, ev, prev), Printed(ev.pairs)[m], 29 + 4 * m)
  {
    hide HeadSegs, TailSegs, BodySegs, RawSegs, Printed, Closer, Hex, PairAt;
    BodySegAt(seqno, ev, prev);
    CloserIs(ev.pairs);
    PairAtRaw(BodySegs(seqno, ev, prev), Printed(ev.pairs), Closer(ev.pairs), m);
  }

  lemma BodyShaped(seqno: nat, ev: Event, prev: Tag)
    ensures Shaped(BodySegs(seqno, ev, prev), Printed(ev.pairs), prev)
  {
    hide HeadSegs, TailSegs, BodySegs, RawSegs, Printed, Closer, Hex, PairAt, TagName;
    BodySegAt(seqno, ev, prev);
    var b := BodySegs(seqno, ev, prev);
    forall j | 1 <= j <= 28
      ensures !(TagName(b[j]) && b[j + 1] == ":")
    {
      HeadRegion(seqno, ev, prev, j);
    }
    forall m | 0 <= m < |Printed(ev.pairs)|
      ensures PairAt(b, Printed(ev.pairs)[m], 29 + 4 * m)
    {
      PairRegion(seqno, ev, prev, m);
    }
  }

  /** Before the writer's own tag fields, a tag name heads a field exactly at a
      printed parameter of that name. */
  lemma TagHits(b: seq<string>, pairs: seq<Pair>, prev: Tag, w: string, j: nat)
    requires Shaped(b, pairs, prev) && TagName(w) && 1 <= j < 29 + 4 * |pairs|
    ensures Hit(b, w, j) <==> j >= 29 && (j - 29) % 4 == 0 && pairs[(j - 29) / 4].key == w
  {
    if j >= 29 {
      var m := (j - 29) / 4;
      assert PairAt(b, pairs[m], 29 + 4 * m);
    }
  }

  // ---------------------------------------------------------------- landings

  lemma {:induction false} JoinSplit(segs: seq<string>, k: nat)
    requires 1 <= k < |segs|
    ensures Join(segs) == Join(segs[..k]) + "\"" + Join(segs[k..])
    decreases k
  {
    if k == 1 {
      assert segs[..1] == [segs[0]];
    } else {
      JoinSplit(segs[1..], k - 1);
      assert segs[..k][1..] == segs[1..][..k - 1];
      assert segs[k..] == segs[1..][k - 1..];
    }
  }

  /** What stands behind a field the search landed on. */
  lemma FieldValue(segs: seq<string>, w: string, k: nat)
    requires Hit(segs, w, k)
    ensures var at := |Join(segs[..k])| + |w| + 4;
            at <= |Join(segs)| && Join(segs)[at..] == Join(segs[k + 2..])
  {
    JoinSplit(segs, k);
    assert segs[k..][1..] == segs[k + 1..];
    assert segs[k + 1..][1..] == segs[k + 2..];
    assert Join(segs[k..]) == w + "\"" + (":" + "\"" + Join(segs[k + 2..]));
    var front := Join(segs[..k]) + "\"" + w + "\"" + ":" + "\"";
    assert Join(segs) == front + Join(segs[k + 2..]);
  }

  /** A search that lands on a field holding a printed tag reads that tag. */
  lemma ReadsTag(segs: seq<string>, w: string, k: nat, tag: Tag)
    requires QuoteFree(segs) && '"' !in w && Hit(segs, w, k) && k + 3 < |segs| && segs[k + 2] == Hex(tag)
    requires forall m :: 1 <= m < k ==> !Hit(segs, w, m)
    ensures StrStr(Join(segs), Field(w)) == |Join(segs[..k])|
    ensures UnhexAt(Join(segs), |Join(segs[..k])| + |w| + 4) == Some(tag)
  {
    LandsOnSegment(segs, w, k);
    FieldValue(segs, w, k);
    var at := |Join(segs[..k])| + |w| + 4;
    var back := segs[k + 2..];
    assert Join(back) == Hex(tag) + "\"" + Join(back[1..]);
    assert Join(segs)[at..at + 64] == Join(segs)[at..][..64] == Hex(tag);
    HexRoundTrip(tag, Join(segs), at);
  }

  predicate NoKey(pairs: seq<Pair>, w: string) {
    forall m :: 0 <= m < |pairs| ==> pairs[m].key != w
  }

  lemma NoHitsWithoutKey(b: seq<string>, pairs: seq<Pair>, prev: Tag, w: string)
    requires Shaped(b, pairs, prev) && TagName(w) && NoKey(pairs, w)
    ensures forall m :: 1 <= m < 29 + 4 * |pairs| ==> !Hit(b, w, m)
  {
    forall m | 1 <= m < 29 + 4 * |pairs|
      ensures !Hit(b, w, m)
    {
      TagHits(b, pairs, prev, w, m);
    }
  }

  lemma PrevFieldLands(b: seq<string>, pairs: seq<Pair>, prev: Tag)
    requires QuoteFree(b) && Shaped(b, pairs, prev) && NoKey(pairs, "prev_hmac")
    ensures var p := StrStr(Join(b), Field("prev_hmac"));
            p >= 0 && UnhexAt(Join(b), p + 13) == Some(prev)
  {
    NoHitsWithoutKey(b, pairs, prev, "prev_hmac");
    ReadsTag(b, "prev_hmac", 29 + 4 * |pairs|, prev);
  }

  /** The `prev_hmac` search lands on the writer's own field, and reads the tag written there. */
  lemma PrevLands(seqno: nat, ev: Event, prev: Tag)
    requires InRange(ev) && KeysLack(Printed(ev.pairs), '"') && NoKey(Printed(ev.pairs), "prev_hmac")
    ensures var p := StrStr(Body(seqno, ev, prev), Field("prev_hmac"));
            p >= 0 && UnhexAt(Body(seqno, ev, prev), p + 13) == Some(prev)
  {
    hide Join, BodySegs, Shaped, QuoteFree, UnhexAt, StrStr, Body;
    JoinBody(seqno, ev, prev);
    BodyQuoteFree(seqno, ev, prev);
    BodyShaped(seqno, ev, prev);
    PrevFieldLands(BodySegs(seqno, ev, prev), Printed(ev.pairs), prev);
  }

  /** A body followed by its suffix, seen as segments. */
  predicate Suffixed(s: seq<string>, b: seq<string>, tag: Tag) {
    && |s| == |b| + 4 && s[..|b|] == b
    && s[|b|] == "hmac" && s[|b| + 1] == ":" && s[|b| + 2] == Hex(tag) && s[|b| + 3] == "}"
  }

  lemma GlueEmpty(b: seq<string>, u: seq<string>)
    requires b != [] && u != [] && u[0] == ""
    ensures Glue(b, u) == b + u[1..]
  {
    assert b[|b| - 1] + "" == b[|b| - 1];
    assert b == b[..|b| - 1] + [b[|b| - 1]];
  }

  lemma SuffixGlued(b: seq<string>, tag: Tag)
    requires b != []
    ensures Suffixed(Glue(b, SuffixSegs(tag)), b, tag)
  {
    var u := SuffixSegs(tag);
    GlueEmpty(b, u);
    var s := b + u[1..];
    assert s[..|b|] == b;
    assert s[|b|..] == u[1..];
  }

  lemma SuffixQuoteFree(tag: Tag)
    ensures QuoteFree(SuffixSegs(tag))
  {
    SuffixSafe(tag);
    SafeLacks(SuffixSegs(tag), '"');
  }

  lemma NoHitsBeforeSuffix(s: seq<string>, b: seq<string>, tag: Tag, pairs: seq<Pair>, prev: Tag)
    requires Suffixed(s, b, tag) && Shaped(b, pairs, prev) && NoKey(pairs, "hmac")
    ensures Hit(s, "hmac", |b|)
    ensures forall m :: 1 <= m < |b| ==> !Hit(s, "hmac", m)
  {
    NoHitsWithoutKey(b, pairs, prev, "hmac");
    assert forall m :: 0 <= m < |b| ==> s[m] == s[..|b|][m] == b[m];
    forall m | 1 <= m < |b|
      ensures !Hit(s, "hmac", m)
    {
      if m < 29 + 4 * |pairs| {
        assert !Hit(b, "hmac", m);
      } else if m == 31 + 4 * |pairs| {
        assert s[m + 1] == ",";
      } else {
        assert |s[m]| != |"hmac"|;
      }
    }
  }

  lemma SuffixLands(b: seq<string>, pairs: seq<Pair>, prev: Tag, tag: Tag)
    requires QuoteFree(b) && Shaped(b, pairs, prev) && NoKey(pairs, "hmac")
    ensures var l := Join(b) + Join(SuffixSegs(tag));
            StrStr(l, Field("hmac")) == |Join(b)| && UnhexAt(l, |Join(b)| + 8) == Some(tag)
  {
    hide Join, Glue, RawSegs, UnhexAt, StrStr, QuoteFree, Hex;
    var s := Glue(b, SuffixSegs(tag));
    SuffixGlued(b, tag);
    SuffixQuoteFree(tag);
    GlueQuoteFree(b, SuffixSegs(tag));
    JoinGlue(b, SuffixSegs(tag));
    NoHitsBeforeSuffix(s, b, tag, pairs, prev);
    ReadsTag(s, "hmac", |b|, tag);
  }

  /** The `hmac` search lands right behind the authenticated part, and reads the tag. */
  lemma HmacLands(seqno: nat, ev: Event, prev: Tag, tag: Tag)
    requires InRange(ev) && KeysLack(Printed(ev.pairs), '"') && NoKey(Printed(ev.pairs), "hmac")
    ensures var l, n := Shown(seqno, ev, prev, tag), |Body(seqno, ev, prev)|;
            StrStr(l, Field("hmac")) == n && UnhexAt(l, n + 8) == Some(tag)
  {
    hide Join, BodySegs, SuffixSegs, Shaped, QuoteFree, UnhexAt, StrStr, Body;
    var b := BodySegs(seqno, ev, prev);
    JoinBody(seqno, ev, prev);
    BodyQuoteFree(seqno, ev, prev);
    BodyShaped(seqno, ev, prev);
    SuffixLands(b, Printed(ev.pairs), prev, tag);
  }

  lemma FirstNamesake(s: seq<string>, b: seq<string>, tag: Tag, pairs: seq<Pair>, prev: Tag, w: string, m: nat)
    requires Suffixed(s, b, tag) && Shaped(b, pairs, prev) && TagName(w)
    requires m < |pairs| && pairs[m].key == w && NoKey(pairs[..m], w)
    ensures Hit(s, w, 29 + 4 * m) && 32 + 4 * m < |s| && s[31 + 4 * m] == Filtered(pairs[m])
    ensures forall j :: 1 <= j < 29 + 4 * m ==> !Hit(s, w, j)
  {
    var k := 29 + 4 * m;
    assert forall j :: 0 <= j < |b| ==> s[j] == s[..|b|][j] == b[j];
    assert PairAt(b, pairs[m], k);
    forall j | 1 <= j < k
      ensures !Hit(s, w, j)
    {
      TagHits(b, pairs, prev, w, j);
      assert j >= 29 && (j - 29) % 4 == 0 ==> pairs[(j - 29) / 4] == pairs[..m][(j - 29) / 4];
      assert Hit(s, w, j) ==> Hit(b, w, j);
    }
  }

  /** A parameter named like a tag field catches the search, and what is read there
      is what its own value reads as. */
  lemma NamesakeCatches(b: seq<string>, pairs: seq<Pair>, prev: Tag, tag: Tag, w: string, m: nat)
    requires QuoteFree(b) && Shaped(b, pairs, prev) && TagName(w)
    requires m < |pairs| && pairs[m].key == w && NoKey(pairs[..m], w)
    ensures var l := Join(b) + Join(SuffixSegs(tag));
            && StrStr(l, Field(w)) >= 0
            && UnhexAt(l, StrStr(l, Field(w)) + |Field(w)|) == UnhexAt(Filtered(pairs[m]), 0)
  {
    hide Join, Glue, SuffixSegs, RawSegs, Filtered, HexAt, UnhexAt, StrStr, QuoteFree, Suffixed;
    var s, k := Glue(b, SuffixSegs(tag)), 29 + 4 * m;
    FieldShape(w);
    SuffixGlued(b, tag);
    SuffixQuoteFree(tag);
    GlueQuoteFree(b, SuffixSegs(tag));
    JoinGlue(b, SuffixSegs(tag));
    FirstNamesake(s, b, tag, pairs, prev, w, m);
    LandsOnSegment(s, w, k);
    FieldValue(s, w, k);
    assert s[k + 2] == Filtered(pairs[m]);
    ReadsValue(s[k + 2..], Join(s), |Join(s[..k])| + |w| + 4);
  }

  /** A tag read at the start of a string value lies within the value. */
  lemma ReadsValue(segs: seq<string>, l: string, at: nat)
    requires |segs| >= 2 && at <= |l| && l[at..] == Join(segs)
    ensures UnhexAt(l, at) == UnhexAt(segs[0], 0)
  {
    hide UnhexAt, HexAt;
    assert Join(segs) == segs[0] + "\"" + Join(segs[1..]);
    ReadsUpToQuote(segs[0], Join(segs[1..]), l, at);
  }

  lemma ReadsUpToQuote(v: string, rest: string, l: string, at: nat)
    requires at <= |l| && l[at..] == v + "\"" + rest
    ensures UnhexAt(l, at) == UnhexAt(v, 0)
  {
    var tail := l[at..];
    assert tail[|v|] == '"' && forall j :: 0 <= j < |v| ==> tail[j] == v[j];
    assert forall j :: 0 <= j < |tail| ==> l[at + j] == tail[j];
    assert forall j :: at <= j < |l| ==> l[j] == tail[j - at];
    assert l[at + |v|] == '"' && HexVal('"') == -1;
    assert HexAt(l, at) <==> HexAt(v, 0);
    if HexAt(v, 0) {
      assert UnhexAt(l, at).value == UnhexAt(v, 0).value;
    }
  }

  lemma SeqText(d: string, j: string)
    ensures "{" + "\"" + ("seq" + "\"" + ((":" + d + ",") + "\"" + j)) == "{\"seq\":" + (d + ("," + ("\"" + j)))
  {
  }

  lemma HeadText(seqno: nat, ev: Event) returns (t: string)
    ensures Join(HeadSegs(seqno, ev)) == "{\"seq\":" + (Dec(seqno) + ("," + t))
  {
    hide HeadSegs, Join, Dec;
    var h := HeadSegs(seqno, ev);
    HeadFacts(seqno, ev);
    JoinThree(h);
    SeqText(Dec(seqno), Join(h[3..]));
    t := "\"" + Join(h[3..]);
  }

  /** The `seq` search lands on the first field of the line. */
  lemma SeqLands(seqno: nat, ev: Event, prev: Tag, rest: string)
    requires seqno < U64
    ensures var l := Body(seqno, ev, prev) + rest;
            StrStr(l, "\"seq\":") == 1 && StrToUll(l[7..]) == seqno
  {
    hide HeadSegs, TailSegs, Join, Params, StrStr, StrToUll, Dec;
    var t := HeadText(seqno, ev);
    SeqFirst(seqno, "," + (t + (Params(ev.pairs) + Join(TailSegs(prev)) + rest)), Body(seqno, ev, prev) + rest);
  }

  lemma SeqFirst(seqno: nat, behind: string, l: string)
    requires seqno < U64 && behind != "" && behind[0] == ','
    requires l == "{\"seq\":" + (Dec(seqno) + behind)
    ensures StrStr(l, "\"seq\":") == 1 && StrToUll(l[7..]) == seqno
  {
    assert OccursAt(l, "\"seq\":", 1);
    assert l[0] == '{';
    StrStrLands(l, "\"seq\":", 1);
    assert l[7..] == Dec(seqno) + behind;
    StrToUllOfDec(seqno, behind);
  }
}
