/** The text of an audit line, and that it can be read only one way
    (src/fhsm_audit.c:139-149, 611-686). */
module AuditFormat {
  import opened CText
  import opened AuditLine

  // -------------------------------------------------------------- parameters

  /** Printable ASCII other than the quotation mark and the backslash. */
  predicate PlainText(s: string) { forall c :: c in s ==> ' ' <= c <= '~' && c != '\"' && c != '\\' }

  function Quoted(p: Pair): string {
    "\"" + p.key + "\":\"" +
    (if PlainText(p.key) && p.value.Some? && PlainText(p.value.value) then p.value.value else "INVALID") + "\""
  }

  function Listed(pairs: seq<Pair>): string {
    if pairs == [] then ""
    else if |pairs| == 1 then Quoted(pairs[0])
    else Quoted(pairs[0]) + "," + Listed(pairs[1..])
  }

  lemma PlainIsSafe(s: string)
    ensures PlainText(s) <==> Safe(s)
  {
    if PlainText(s) {
      forall i | 0 <= i < |s|
        ensures SafeChar(s[i])
      {
        assert s[i] in s;
      }
    }
  }

  lemma QuotedIsEntry(p: Pair, first: bool)
    ensures Entry(p.key, Filtered(p), first) == (if first then "" else ",") + Quoted(p)
  {
    hide Safe, PlainText;
    PlainIsSafe(p.key);
    if p.value.Some? {
      PlainIsSafe(p.value.value);
    }
  }

  lemma {:induction false} ListedSnoc(pairs: seq<Pair>, p: Pair)
    ensures Listed(pairs + [p]) == if pairs == [] then Quoted(p) else Listed(pairs) + "," + Quoted(p)
  {
    hide Quoted;
    if pairs == [] {
      assert pairs + [p] == [p];
    } else {
      assert (pairs + [p])[1..] == pairs[1..] + [p] && (pairs + [p])[0] == pairs[0];
      ListedSnoc(pairs[1..], p);
    }
  }

  lemma {:induction false} UnboundedIs(pairs: seq<Pair>)
    ensures Unbounded(pairs) == "{" + Listed(pairs)
  {
    hide Quoted, Entry, Filtered;
    if pairs == [] {
      assert "{" + "" == "{";
    } else {
      var front, p := pairs[..|pairs| - 1], pairs[|pairs| - 1];
      assert pairs == front + [p];
      UnboundedIs(front);
      ListedSnoc(front, p);
      QuotedIsEntry(p, |pairs| == 1);
      if front == [] {
        assert "{" + ("" + Quoted(p)) == "{" + Quoted(p);
      } else {
        assert "{" + Listed(front) + ("," + Quoted(p)) == "{" + (Listed(front) + "," + Quoted(p));
      }
    }
  }

  /** The parameters are an object of quoted pairs, an unsafe key or value written
      as INVALID; an object too large for the buffer becomes an empty one, and one
      that fills it to the last byte loses its brace. */
  lemma ParamsIs(pairs: seq<Pair>)
    ensures var text := "{" + Listed(pairs) + "}";
            Params(pairs) == if |text| < 1024 then text else if |text| == 1024 then text[..1023] else "{}"
  {
    hide Listed, Unbounded;
    UnboundedIs(pairs);
    var u := "{" + Listed(pairs);
    assert (u + "}")[..|u|] == u;
  }

  // -------------------------------------------------------------------- format

  function RoleText(role: Role): string {
    if role == SO then "SO" else if role == USER then "USER" else "NONE"
  }

  /** A member of an object with a number, or a text, and what is printed after it. */
  function Number(name: string, digits: string, rest: string): string {
    "\"" + name + "\":" + digits + "," + rest
  }

  function Text(name: string, text: string, rest: string): string {
    "\"" + name + "\":\"" + text + "\"," + rest
  }

  /** One line: an object of twelve members in this order, and a newline. */
  function Json(seqno: nat, ev: Event, prev: Tag, tag: Tag): string {
    "{" +
    Number("seq", Dec(seqno),
      Number("ts", DecInt(ev.ts),
        Text("event", ev.name,
          Number("slot", DecInt(ev.slot),
            Number("session", DecInt(ev.session),
              Text("role", RoleText(ev.role),
                Text("actor", ev.actor,
                  Text("result", if ev.rv == 0 then "OK" else "FAIL",
                    Number("rv", Dec(ev.rv),
                      Number("params", Params(ev.pairs), Tags(prev, tag)))))))))))
  }

  function Tags(prev: Tag, tag: Tag): string {
    Text("prev_hmac", Hex(prev), "\"hmac\":\"" + Hex(tag) + "\"}\n")
  }

  lemma JoinStep(segs: seq<string>, k: nat)
    requires k < |segs|
    ensures Join(segs[k..]) == if k == |segs| - 1 then segs[k] else segs[k] + "\"" + Join(segs[k + 1..])
  {
    assert segs[k..][1..] == segs[k + 1..];
  }

  /** The segments from `k` on, the quotation mark before them, and what follows. */
  function From(segs: seq<string>, k: nat, x: string): string
    requires k < |segs|
  {
    "\"" + (Join(segs[k..]) + x)
  }

  lemma NumberFrom(segs: seq<string>, k: nat, name: string, digits: string, x: string)
    requires k + 2 < |segs| && segs[k] == name && segs[k + 1] == ":" + digits + ","
    ensures From(segs, k, x) == Number(name, digits, From(segs, k + 2, x))
  {
    hide Join, Number;
    JoinStep(segs, k);
    JoinStep(segs, k + 1);
    NumberParts(name, digits, Join(segs[k + 2..]), x);
  }

  lemma NumberParts(name: string, digits: string, rest: string, x: string)
    ensures "\"" + (name + "\"" + (":" + digits + "," + "\"" + rest) + x) == Number(name, digits, "\"" + (rest + x))
  {
  }

  lemma TextFrom(segs: seq<string>, k: nat, name: string, text: string, x: string)
    requires k + 4 < |segs| && segs[k] == name && segs[k + 1] == ":" && segs[k + 2] == text && segs[k + 3] == ","
    ensures From(segs, k, x) == Text(name, text, From(segs, k + 4, x))
  {
    hide Join;
    JoinStep(segs, k);
    JoinStep(segs, k + 1);
    JoinStep(segs, k + 2);
    JoinStep(segs, k + 3);
    TextParts(name, text, Join(segs[k + 4..]), x);
  }

  lemma TextParts(name: string, text: string, rest: string, x: string)
    ensures "\"" + (name + "\"" + (":" + "\"" + (text + "\"" + ("," + "\"" + rest))) + x) ==
            Text(name, text, "\"" + (rest + x))
  {
  }

  lemma TagsFrom(prev: Tag, tag: Tag)
    ensures Join(TailSegs(prev)) + Join(SuffixSegs(tag)) + "\n" == "," + Tags(prev, tag)
  {
    hide Hex, Join;
    Join5(TailSegs(prev));
    Join5(SuffixSegs(tag));
    TagsParts(Hex(prev), Hex(tag));
  }

  lemma TagsParts(p: string, t: string)
    ensures ("," + "\"" + ("prev_hmac" + "\"" + (":" + "\"" + (p + "\"" + ",")))) +
            ("" + "\"" + ("hmac" + "\"" + (":" + "\"" + (t + "\"" + "}")))) + "\n" ==
            "," + Text("prev_hmac", p, "\"hmac\":\"" + t + "\"}\n")
  {
  }

  lemma Join5(s: seq<string>)
    requires |s| == 5
    ensures Join(s) == s[0] + "\"" + (s[1] + "\"" + (s[2] + "\"" + (s[3] + "\"" + s[4])))
  {
    hide Join;
    assert s[0..] == s;
    JoinStep(s, 0);
    JoinStep(s, 1);
    JoinStep(s, 2);
    JoinStep(s, 3);
    JoinStep(s, 4);
  }

  lemma ParamsFrom(segs: seq<string>, params: string, rest: string)
    requires |segs| == 29 && segs[27] == "params" && segs[28] == ":"
    ensures From(segs, 27, params + ("," + rest)) == Number("params", params, rest)
  {
    hide Join;
    JoinStep(segs, 27);
    JoinStep(segs, 28);
    assert "\"" + ("params" + "\"" + ":" + (params + ("," + rest))) == "\"" + "params" + "\":" + params + "," + rest;
  }

  lemma HeadFrom(segs: seq<string>, x: string)
    requires |segs| > 1 && segs[0] == "{"
    ensures Join(segs) + x == "{" + From(segs, 1, x)
  {
    hide Join;
    JoinStep(segs, 0);
    assert segs[0..] == segs;
    BraceParts(Join(segs[1..]), x);
  }

  lemma BraceParts(rest: string, x: string)
    ensures "{" + "\"" + rest + x == "{" + ("\"" + (rest + x))
  {
  }

  /** A line is that object, whatever the event. */
  lemma LineIs(seqno: nat, ev: Event, prev: Tag, tag: Tag)
    ensures Line(seqno, ev, prev, tag) == Json(seqno, ev, prev, tag)
  {
    hide Join, From, Number, Text, Tags, Dec, DecInt, Params, Hex, HeadSegs, RoleText;
    var h := HeadSegs(seqno, ev);
    var x := Params(ev.pairs) + ("," + Tags(prev, tag));
    LineParts(seqno, ev, prev, tag);
    assert h[0] == "{" by { OpensWithBrace(seqno, ev); }
    HeadFrom(h, x);
    FirstHalf(seqno, ev, x);
    SecondHalf(seqno, ev, prev, tag);
  }

  lemma OpensWithBrace(seqno: nat, ev: Event)
    ensures HeadSegs(seqno, ev)[0] == "{"
  {
  }

  lemma FirstSegs(seqno: nat, ev: Event)
    ensures var h := HeadSegs(seqno, ev);
            h[1] == "seq" && h[2] == ":" + Dec(seqno) + "," && h[3] == "ts" && h[4] == ":" + DecInt(ev.ts) + ","
  {
    hide Dec, DecInt;
  }

  lemma EventSegs(seqno: nat, ev: Event)
    ensures var h := HeadSegs(seqno, ev); h[5] == "event" && h[6] == ":" && h[7] == ev.name && h[8] == ","
  {
    hide Dec, DecInt;
  }

  lemma PlaceSegs(seqno: nat, ev: Event)
    ensures var h := HeadSegs(seqno, ev);
            && h[9] == "slot" && h[10] == ":" + DecInt(ev.slot) + ","
            && h[11] == "session" && h[12] == ":" + DecInt(ev.session) + ","
  {
    hide Dec, DecInt;
  }

  lemma FirstHalf(seqno: nat, ev: Event, x: string)
    ensures var h := HeadSegs(seqno, ev);
            From(h, 1, x) == Number("seq", Dec(seqno), Number("ts", DecInt(ev.ts), Text("event", ev.name,
              Number("slot", DecInt(ev.slot), Number("session", DecInt(ev.session), From(h, 13, x))))))
  {
    hide Join, From, Number, Text, Dec, DecInt, HeadSegs;
    var h := HeadSegs(seqno, ev);
    FirstSegs(seqno, ev);
    EventSegs(seqno, ev);
    PlaceSegs(seqno, ev);
    NumberFrom(h, 1, "seq", Dec(seqno), x);
    NumberFrom(h, 3, "ts", DecInt(ev.ts), x);
    TextFrom(h, 5, "event", ev.name, x);
    NumberFrom(h, 9, "slot", DecInt(ev.slot), x);
    NumberFrom(h, 11, "session", DecInt(ev.session), x);
  }

  lemma SecondHalf(seqno: nat, ev: Event, prev: Tag, tag: Tag)
    ensures From(HeadSegs(seqno, ev), 13, Params(ev.pairs) + ("," + Tags(prev, tag))) ==
            Text("role", RoleText(ev.role), Text("actor", ev.actor,
              Text("result", if ev.rv == 0 then "OK" else "FAIL",
                Number("rv", Dec(ev.rv), Number("params", Params(ev.pairs), Tags(prev, tag))))))
  {
    hide Join, From, Number, Text, Tags, Dec, DecInt, Params, Hex;
    var h := HeadSegs(seqno, ev);
    var x := Params(ev.pairs) + ("," + Tags(prev, tag));
    TextFrom(h, 13, "role", RoleText(ev.role), x);
    TextFrom(h, 17, "actor", ev.actor, x);
    TextFrom(h, 21, "result", if ev.rv == 0 then "OK" else "FAIL", x);
    NumberFrom(h, 25, "rv", Dec(ev.rv), x);
    ParamsFrom(h, Params(ev.pairs), Tags(prev, tag));
  }

  lemma LineParts(seqno: nat, ev: Event, prev: Tag, tag: Tag)
    ensures Line(seqno, ev, prev, tag) == Join(HeadSegs(seqno, ev)) + (Params(ev.pairs) + ("," + Tags(prev, tag)))
  {
    hide Join, HeadSegs, Params, TailSegs, SuffixSegs, Tags;
    TagsFrom(prev, tag);
    var a, b, c, d := Join(HeadSegs(seqno, ev)), Params(ev.pairs), Join(TailSegs(prev)), Join(SuffixSegs(tag));
    assert a + b + c + d + "\n" == a + (b + (c + d + "\n"));
  }

  // ----------------------------------------------------------- reading it back

  /** Text up to a character it does not hold is where that character first stands. */
  lemma SameUpTo(c: char, a: string, x: string, b: string, y: string)
    requires c !in a && c !in b && a + [c] + x == b + [c] + y
    ensures a == b && x == y
  {
    var s, t := a + [c] + x, b + [c] + y;
    assert s[|a|] == c && t[|b|] == c;
    assert forall i :: 0 <= i < |a| ==> s[i] == a[i];
    assert forall i :: 0 <= i < |b| ==> t[i] == b[i];
    assert |a| == |b|;
    assert s[..|a|] == a && t[..|b|] == b;
    assert s[|a| + 1..] == x && t[|b| + 1..] == y;
  }

  lemma SamePrefix(p: string, x: string, y: string)
    requires p + x == p + y
    ensures x == y
  {
    assert (p + x)[|p|..] == x && (p + y)[|p|..] == y;
  }

  lemma SameNumber(name: string, d: string, x: string, e: string, y: string)
    requires Number(name, d, x) == Number(name, e, y) && ',' !in d && ',' !in e
    ensures d == e && x == y
  {
    var p := "\"" + name + "\":";
    assert p + d + "," + x == p + (d + "," + x) && p + e + "," + y == p + (e + "," + y);
    SamePrefix(p, d + "," + x, e + "," + y);
    SameUpTo(',', d, x, e, y);
  }

  lemma SameText(name: string, d: string, x: string, e: string, y: string)
    requires Text(name, d, x) == Text(name, e, y) && '\"' !in d && '\"' !in e
    ensures d == e && x == y
  {
    var p := "\"" + name + "\":\"";
    TextSplits(name, d, x);
    TextSplits(name, e, y);
    SamePrefix(p, d + "\"" + ("," + x), e + "\"" + ("," + y));
    SameUpTo('\"', d, "," + x, e, "," + y);
    SamePrefix(",", x, y);
  }

  lemma TextSplits(name: string, d: string, x: string)
    ensures Text(name, d, x) == "\"" + name + "\":\"" + (d + "\"" + ("," + x))
  {
  }

  lemma SameDec(m: nat, n: nat)
    requires Dec(m) == Dec(n)
    ensures m == n
  {
    LeadingValueOfDec(m);
    LeadingValueOfDec(n);
  }

  lemma DecHasNo(n: nat, c: char)
    requires !IsDigit(c)
    ensures c !in Dec(n)
  {
  }

  lemma SameDecInt(i: int, j: int)
    requires DecInt(i) == DecInt(j)
    ensures i == j
  {
    hide Dec;
    var s := DecInt(i);
    assert s[0] == '-' <==> i < 0 by { SignOf(i); }
    assert s[0] == '-' <==> j < 0 by { SignOf(j); }
    if i < 0 {
      SamePrefix("-", Dec(-i), Dec(-j));
      SameDec(-i, -j);
    } else {
      SameDec(i, j);
    }
  }

  lemma SignOf(i: int)
    ensures DecInt(i) != "" && (DecInt(i)[0] == '-' <==> i < 0)
  {
    if i >= 0 {
      assert Dec(i)[0] in Dec(i);
    }
  }

  lemma DecIntHasNo(i: int)
    ensures ',' !in DecInt(i)
  {
    hide Dec;
    DecHasNo(if i < 0 then -i else i, ',');
  }

  lemma SafeHasNo(s: string)
    requires Safe(s)
    ensures '\"' !in s
  {
  }

  lemma SameHex(s: Tag, t: Tag)
    requires Hex(s) == Hex(t)
    ensures s == t
  {
    hide Hex;
    assert Hex(s)[0..64] == Hex(s) && Hex(t)[0..64] == Hex(t);
    HexRoundTrip(s, Hex(s), 0);
    HexRoundTrip(t, Hex(t), 0);
  }

  /** The tags have one width, so they and the parameters before them part one way. */
  lemma SameTags(p: string, prev: Tag, tag: Tag, q: string, prev': Tag, tag': Tag)
    requires p + "," + Tags(prev, tag) == q + "," + Tags(prev', tag')
    ensures p == q && prev == prev' && tag == tag'
  {
    hide Hex, Tags;
    TagsWidth(prev, tag);
    TagsWidth(prev', tag');
    var s, t := p + "," + Tags(prev, tag), q + "," + Tags(prev', tag');
    assert |p| == |q|;
    assert s[..|p|] == p && t[..|q|] == q;
    assert s[|p| + 1..] == Tags(prev, tag) && t[|q| + 1..] == Tags(prev', tag');
    TagsDiffer(prev, tag, prev', tag');
  }

  lemma TagsWidth(prev: Tag, tag: Tag)
    ensures |Tags(prev, tag)| == 154
  {
  }

  lemma TagsDiffer(prev: Tag, tag: Tag, prev': Tag, tag': Tag)
    requires Tags(prev, tag) == Tags(prev', tag')
    ensures prev == prev' && tag == tag'
  {
    hide Hex, Text;
    HexSafe(prev);
    HexSafe(prev');
    SafeHasNo(Hex(prev));
    SafeHasNo(Hex(prev'));
    var x, y := "\"hmac\":\"" + Hex(tag) + "\"}\n", "\"hmac\":\"" + Hex(tag') + "\"}\n";
    SameText("prev_hmac", Hex(prev), x, Hex(prev'), y);
    assert x[8..72] == Hex(tag) && y[8..72] == Hex(tag');
    SameHex(prev, prev');
    SameHex(tag, tag');
  }

  lemma RoleTextSays(r: Role, s: Role)
    ensures '\"' !in RoleText(r) && (RoleText(r) == RoleText(s) ==> r == s)
  {
    assert |RoleText(SO)| == 2 && RoleText(USER)[0] == 'U' && RoleText(NONE)[0] == 'N';
  }

  /** A line tells its event: equal lines agree in the number, in every field, in the
      text of the parameters and in both tags. */
  lemma LineTellsAll(n: nat, e: Event, prev: Tag, tag: Tag, n': nat, e': Event, prev': Tag, tag': Tag)
    requires InRange(e) && InRange(e') && Line(n, e, prev, tag) == Line(n', e', prev', tag')
    ensures n == n' && prev == prev' && tag == tag' && Params(e.pairs) == Params(e'.pairs)
    ensures e.(pairs := []) == e'.(pairs := [])
  {
    hide Number, Text, Tags, Dec, DecInt, Params, Hex, RoleText, Safe, Line;
    LineIs(n, e, prev, tag);
    LineIs(n', e', prev', tag');
    var x := Middle(e, prev, tag);
    var y := Middle(e', prev', tag');
    var x1, y1 := Text("event", e.name, x), Text("event", e'.name, y);
    var x2, y2 := Number("ts", DecInt(e.ts), x1), Number("ts", DecInt(e'.ts), y1);
    SamePrefix("{", Number("seq", Dec(n), x2), Number("seq", Dec(n'), y2));
    DecHasNo(n, ',');
    DecHasNo(n', ',');
    SameNumber("seq", Dec(n), x2, Dec(n'), y2);
    SameDec(n, n');
    SameInt("ts", e.ts, x1, e'.ts, y1);
    SafeHasNo(e.name);
    SafeHasNo(e'.name);
    SameText("event", e.name, x, e'.name, y);
    MiddleTells(e, prev, tag, e', prev', tag');
  }

  lemma SameInt(name: string, i: int, x: string, j: int, y: string)
    requires Number(name, DecInt(i), x) == Number(name, DecInt(j), y)
    ensures i == j && x == y
  {
    hide Number, DecInt;
    DecIntHasNo(i);
    DecIntHasNo(j);
    SameNumber(name, DecInt(i), x, DecInt(j), y);
    SameDecInt(i, j);
  }

  /** From the slot on, and from the result on. */
  function Middle(e: Event, prev: Tag, tag: Tag): string {
    Number("slot", DecInt(e.slot), Number("session", DecInt(e.session),
      Text("role", RoleText(e.role), Text("actor", e.actor, End(e, prev, tag)))))
  }

  function End(e: Event, prev: Tag, tag: Tag): string {
    Text("result", if e.rv == 0 then "OK" else "FAIL",
      Number("rv", Dec(e.rv), Number("params", Params(e.pairs), Tags(prev, tag))))
  }

  lemma MiddleTells(e: Event, prev: Tag, tag: Tag, e': Event, prev': Tag, tag': Tag)
    requires InRange(e) && InRange(e') && Middle(e, prev, tag) == Middle(e', prev', tag')
    ensures e.slot == e'.slot && e.session == e'.session && e.role == e'.role && e.actor == e'.actor && e.rv == e'.rv
    ensures Params(e.pairs) == Params(e'.pairs) && prev == prev' && tag == tag'
  {
    hide Number, Text, Tags, Dec, DecInt, Params, Hex, RoleText, Safe, End;
    var x, y := End(e, prev, tag), End(e', prev', tag');
    var x1, y1 := Text("actor", e.actor, x), Text("actor", e'.actor, y);
    var x2, y2 := Text("role", RoleText(e.role), x1), Text("role", RoleText(e'.role), y1);
    var x3, y3 := Number("session", DecInt(e.session), x2), Number("session", DecInt(e'.session), y2);
    SameInt("slot", e.slot, x3, e'.slot, y3);
    SameInt("session", e.session, x2, e'.session, y2);
    RoleTextSays(e.role, e'.role);
    RoleTextSays(e'.role, e.role);
    SameText("role", RoleText(e.role), x1, RoleText(e'.role), y1);
    SafeHasNo(e.actor);
    SafeHasNo(e'.actor);
    SameText("actor", e.actor, x, e'.actor, y);
    EndTells(e, prev, tag, e', prev', tag');
  }

  lemma EndTells(e: Event, prev: Tag, tag: Tag, e': Event, prev': Tag, tag': Tag)
    requires End(e, prev, tag) == End(e', prev', tag')
    ensures e.rv == e'.rv && Params(e.pairs) == Params(e'.pairs) && prev == prev' && tag == tag'
  {
    hide Number, Text, Tags, Dec, Params, Hex;
    var a, b := if e.rv == 0 then "OK" else "FAIL", if e'.rv == 0 then "OK" else "FAIL";
    var x := Number("params", Params(e.pairs), Tags(prev, tag));
    var y := Number("params", Params(e'.pairs), Tags(prev', tag'));
    assert '\"' !in a && '\"' !in b;
    SameText("result", a, Number("rv", Dec(e.rv), x), b, Number("rv", Dec(e'.rv), y));
    DecHasNo(e.rv, ',');
    DecHasNo(e'.rv, ',');
    SameNumber("rv", Dec(e.rv), x, Dec(e'.rv), y);
    SameDec(e.rv, e'.rv);
    NumberSplits("params", Params(e.pairs), Tags(prev, tag));
    NumberSplits("params", Params(e'.pairs), Tags(prev', tag'));
    var p, q := Params(e.pairs) + "," + Tags(prev, tag), Params(e'.pairs) + "," + Tags(prev', tag');
    SamePrefix("\"" + "params" + "\":", p, q);
    SameTags(Params(e.pairs), prev, tag, Params(e'.pairs), prev', tag');
  }

  lemma NumberSplits(name: string, d: string, x: string)
    ensures Number(name, d, x) == "\"" + name + "\":" + (d + "," + x)
  {
  }
}
