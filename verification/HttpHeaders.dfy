/** Which header lines are accepted, and what they mean, told from the client's side
    (service/fhsm_service.c:1010-1019, 1214-1285): a header is printed from its parts,
    and reading a list of headers is shown to depend only on what they say. */
module HttpHeaders {
  import opened CText
  import opened HttpRequest

  const SUBJECT := "x-fhsm-client-subject"
  const KEY := "x-fhsm-key"
  const SIGNATURE_LENGTH := "x-fhsm-signature-length"
  const CONTENT_LENGTH := "content-length"
  const TRANSFER_ENCODING := "transfer-encoding"

  // --------------------------------------------------------------- one header

  /** A header as a client writes it: a name, a colon, and a value between blanks. */
  datatype Item = Item(name: string, left: string, value: string, right: string)

  function Text(i: Item): string { i.name + ":" + (i.left + i.value + i.right) }

  predicate Blanks(s: string) { forall k :: 0 <= k < |s| ==> s[k] == ' ' || s[k] == '\t' }

  predicate Trimmed(s: string) {
    s == "" || (s[0] != ' ' && s[0] != '\t' && s[|s| - 1] != ' ' && s[|s| - 1] != '\t')
  }

  /** Split as a header is, whatever the value holds. */
  predicate Split(i: Item) {
    1 <= |i.name| <= 64 && ':' !in i.name && Blanks(i.left) && Blanks(i.right) && Trimmed(i.value)
  }

  predicate Printable(s: string) { |s| <= 256 && forall c :: c in s ==> c as int >= 32 && c as int != 127 }

  predicate Good(i: Item) { Split(i) && Printable(i.value) }

  /** The header of that name, in any letter case. */
  predicate Is(i: Item, id: string) {
    && |i.name| == |id|
    && forall k :: 0 <= k < |id| ==>
                     i.name[k] == id[k] || ('a' <= id[k] <= 'z' && i.name[k] as int + 32 == id[k] as int)
  }

  lemma {:induction false} TrimLeftSplits(s: string) returns (l: string)
    ensures Blanks(l) && s == l + TrimLeft(s)
  {
    if s != "" && Blank(s[0]) {
      var rest := TrimLeftSplits(s[1..]);
      l := [s[0]] + rest;
      assert s == [s[0]] + s[1..];
    } else {
      l := "";
    }
  }

  lemma {:induction false} TrimRightSplits(s: string) returns (r: string)
    ensures Blanks(r) && s == TrimRight(s) + r
    decreases |s|
  {
    if s != "" && Blank(s[|s| - 1]) {
      var rest := TrimRightSplits(s[..|s| - 1]);
      r := rest + [s[|s| - 1]];
      assert s == s[..|s| - 1] + [s[|s| - 1]];
    } else {
      r := "";
    }
  }

  lemma {:induction false} TrimLeftOff(l: string, s: string)
    requires Blanks(l)
    ensures TrimLeft(l + s) == TrimLeft(s)
  {
    if l == "" {
      assert l + s == s;
    } else {
      assert (l + s)[1..] == l[1..] + s;
      TrimLeftOff(l[1..], s);
    }
  }

  lemma {:induction false} TrimRightOff(s: string, r: string)
    requires Blanks(r)
    ensures TrimRight(s + r) == TrimRight(s)
    decreases |r|
  {
    if r == "" {
      assert s + r == s;
    } else {
      assert (s + r)[..|s + r| - 1] == s + r[..|r| - 1];
      TrimRightOff(s, r[..|r| - 1]);
    }
  }

  /** A value loses the blanks around it and nothing else. */
  lemma TrimsTo(l: string, v: string, r: string)
    requires Blanks(l) && Blanks(r) && Trimmed(v)
    ensures TrimRight(TrimLeft(l + v + r)) == v
  {
    assert l + v + r == l + (v + r);
    TrimLeftOff(l, v + r);
    if v == "" {
      assert v + r == r == r + "";
      TrimLeftOff(r, "");
    } else {
      assert (v + r)[0] == v[0];
      TrimRightOff(v, r);
    }
  }

  lemma TrimLeaves(s: string) returns (l: string, r: string)
    ensures var v := TrimRight(TrimLeft(s)); Blanks(l) && Blanks(r) && Trimmed(v) && s == l + v + r
  {
    l := TrimLeftSplits(s);
    var t := TrimLeft(s);
    r := TrimRightSplits(t);
    var v := TrimRight(t);
    assert s == l + v + r;
    if v != "" {
      assert v[0] == t[0];
    }
  }

  lemma ColonAt(i: Item)
    requires ':' !in i.name
    ensures MemChr(Text(i), ':') == |i.name|
    ensures Text(i)[..|i.name|] == i.name && Text(i)[|i.name| + 1..] == i.left + i.value + i.right
  {
    var s, n := Text(i), |i.name|;
    assert s[n] == ':';
    assert forall k :: 0 <= k < n ==> s[k] == i.name[k];
  }

  /** What a printed header is read as. */
  lemma TextIsRead(i: Item)
    requires Split(i)
    ensures Header(Text(i)) == if Printable(i.value) then Ok((i.name, i.value)) else Refused(HeaderValueBad)
  {
    hide MemChr, TrimLeft, TrimRight;
    ColonAt(i);
    TrimsTo(i.left, i.value, i.right);
  }

  /** Every line with a usable name is a printed header, of whatever value. */
  lemma LineSplits(line: string) returns (i: Item)
    requires 1 <= MemChr(line, ':') <= 64
    ensures Split(i) && line == Text(i)
  {
    hide MemChr, TrimLeft, TrimRight;
    var colon := MemChr(line, ':');
    var l, r := TrimLeaves(line[colon + 1..]);
    i := Item(line[..colon], l, TrimRight(TrimLeft(line[colon + 1..])), r);
    assert line == line[..colon] + ":" + line[colon + 1..];
  }

  /** A header line is accepted if and only if it is a name of 1 to 64 characters
      without a colon, a colon, and a printable value of at most 256 between blanks;
      it gives that name and that value. */
  lemma HeaderIff(line: string, name: string, value: string)
    ensures Header(line) == Ok((name, value)) <==>
            exists l, r :: Good(Item(name, l, value, r)) && line == Text(Item(name, l, value, r))
  {
    hide Split, Text, Printable;
    if Header(line) == Ok((name, value)) {
      var i := LineSplits(line);
      TextIsRead(i);
      assert Good(Item(name, i.left, value, i.right));
    }
    forall l, r | Good(Item(name, l, value, r)) && line == Text(Item(name, l, value, r))
      ensures Header(line) == Ok((name, value))
    {
      TextIsRead(Item(name, l, value, r));
    }
  }

  lemma NameMatches(i: Item, id: string)
    requires forall c :: c in id ==> !('A' <= c <= 'Z')
    ensures Is(i, id) <==> Lower(i.name) == id
  {
    if |i.name| == |id| {
      forall k | 0 <= k < |id|
        ensures LowerChar(i.name[k]) == id[k] <==>
                i.name[k] == id[k] || ('a' <= id[k] <= 'z' && i.name[k] as int + 32 == id[k] as int)
      {
        assert id[k] in id;
      }
    }
  }

  // ------------------------------------------------------------------ numbers

  function Zeros(k: nat): string { if k == 0 then "" else "0" + Zeros(k - 1) }

  /** The number in decimal, leading zeros allowed. */
  ghost predicate Decimal(s: string, n: nat) { exists k: nat :: s == Zeros(k) + Dec(n) }

  lemma {:induction false} ZerosCount(k: nat)
    ensures AllDigits(Zeros(k)) && LeadingValue(Zeros(k)) == 0 && Zeros(k + 1) == Zeros(k) + "0"
  {
    if k > 0 {
      ZerosCount(k - 1);
      assert Zeros(k)[1..] == Zeros(k - 1);
      assert LeadingValue(Zeros(k)) == LeadingValue(Zeros(k - 1), 0);
    } else {
      assert Zeros(1) == "0" + Zeros(0) == "0";
    }
  }

  lemma DecimalReads(s: string, n: nat)
    requires Decimal(s, n)
    ensures s != "" && AllDigits(s) && LeadingValue(s) == n
  {
    var k: nat :| s == Zeros(k) + Dec(n);
    ZerosCount(k);
    LeadingValueOfRun(Zeros(k), Dec(n), 0);
    LeadingValueOfDec(n);
  }

  lemma {:induction false} DigitsAreDecimal(s: string)
    requires s != "" && AllDigits(s)
    ensures Decimal(s, LeadingValue(s))
    decreases |s|
  {
    hide Decimal, Dec;
    var u, c := s[..|s| - 1], s[|s| - 1];
    assert s == u + [c] && c in s;
    LeadingValueOfRun(u, [c], 0);
    assert LeadingValue([c], LeadingValue(u)) == LeadingValue([c][1..], LeadingValue(u) * 10 + DigitVal(c));
    if u == "" {
      OneDigit(c);
    } else {
      DigitsAreDecimal(u);
      DecimalGrows(u, LeadingValue(u), c);
    }
  }

  lemma OneDigit(c: char)
    requires IsDigit(c)
    ensures Decimal([c], DigitVal(c))
  {
    assert [c] == Zeros(0) + Dec(DigitVal(c));
  }

  lemma DecimalGrows(u: string, m: nat, c: char)
    requires Decimal(u, m) && IsDigit(c)
    ensures Decimal(u + [c], m * 10 + DigitVal(c))
  {
    var k: nat :| u == Zeros(k) + Dec(m);
    var d := DigitVal(c);
    if m == 0 {
      ZerosCount(k);
      assert u + [c] == Zeros(k + 1) + Dec(d);
    } else {
      assert (m * 10 + d) / 10 == m && (m * 10 + d) % 10 == d;
      assert u + [c] == Zeros(k) + Dec(m * 10 + d);
    }
  }

  /** A content length: up to nine digits, no more than 64 KiB. */
  ghost predicate LengthIs(v: string, n: nat) { |v| <= 9 && n <= 65536 && Decimal(v, n) }

  lemma LengthIff(v: string, n: nat)
    ensures LengthOf(v) == Ok(n) <==> LengthIs(v, n)
    ensures LengthOf(v) == Refused(BodyTooLarge) <==> |v| <= 9 && exists m: nat :: m > 65536 && Decimal(v, m)
    ensures LengthOf(v).Ok? || LengthOf(v) == Refused(BodyTooLarge) || LengthOf(v) == Refused(ContentLengthBad)
  {
    hide Decimal, LeadingValue;
    if v != "" && AllDigits(v) {
      DigitsAreDecimal(v);
    }
    forall m: nat | Decimal(v, m)
      ensures v != "" && AllDigits(v) && LeadingValue(v) == m
    {
      DecimalReads(v, m);
    }
  }

  /** A signature length: a positive number up to 64 KiB, a plus sign allowed, within
      31 characters. */
  ghost predicate SignatureIs(v: string, n: nat) {
    && |v| <= 31 && 1 <= n <= 65536
    && (Decimal(v, n) || (v != "" && v[..1] == "+" && Decimal(v[1..], n)))
  }

  lemma SignatureIff(v: string, n: nat)
    ensures SignatureLengthOf(v) == Ok(n) <==> SignatureIs(v, n)
    ensures SignatureLengthOf(v).Ok? || SignatureLengthOf(v) == Refused(SignatureLengthBad)
  {
    hide Decimal, LeadingValue;
    if v != "" {
      assert v[..1] == [v[0]];
    }
    var digits := if v != "" && v[0] == '+' then v[1..] else v;
    if digits != "" && AllDigits(digits) {
      DigitsAreDecimal(digits);
    }
    if Decimal(digits, n) {
      DecimalReads(digits, n);
    }
    if Decimal(v, n) {
      DecimalReads(v, n);
      assert v[0] in v;
    }
  }

  // ------------------------------------------------------------- all headers

  /** The values given under a name, in order. */
  function Values(items: seq<Item>, id: string): seq<string> {
    if items == [] then []
    else
      var last := items[|items| - 1];
      Values(items[..|items| - 1], id) + if Is(last, id) then [last.value] else []
  }

  predicate FirstWithin(vs: seq<string>, most: nat) { vs == [] || 1 <= |vs[0]| <= most }

  /** The limits on the headers of a list, but for their number. */
  ghost predicate Within(items: seq<Item>) {
    && (forall i :: i in items ==> Good(i))
    && FirstWithin(Values(items, SUBJECT), 127) && FirstWithin(Values(items, KEY), 63)
    && (forall v :: v in Values(items, SIGNATURE_LENGTH) ==> IsSignature(v))
    && |Values(items, CONTENT_LENGTH)| <= 1
    && (forall v :: v in Values(items, CONTENT_LENGTH) ==> IsLength(v))
  }

  ghost predicate IsSignature(v: string) { exists n :: SignatureIs(v, n) }

  ghost predicate IsLength(v: string) { exists n :: LengthIs(v, n) }

  ghost predicate Limits(items: seq<Item>) { |items| <= 32 && Within(items) }

  function First(vs: seq<string>): Option<string> { if vs == [] then None else Some(vs[0]) }

  /** What a list of headers says: the first subject and the first key, the last
      signature length, the one content length, and which came more than once. */
  ghost predicate Says(items: seq<Item>, f: Fields) {
    && f.subject == First(Values(items, SUBJECT)) && (f.subjectRepeated <==> |Values(items, SUBJECT)| > 1)
    && f.key == First(Values(items, KEY)) && (f.keyRepeated <==> |Values(items, KEY)| > 1)
    && SaysSignature(Values(items, SIGNATURE_LENGTH), f)
    && SaysLength(Values(items, CONTENT_LENGTH), f)
    && (f.coded <==> Values(items, TRANSFER_ENCODING) != [])
  }

  ghost predicate SaysSignature(vs: seq<string>, f: Fields) {
    && (f.siglenRepeated <==> |vs| > 1)
    && if vs == [] then f.siglen == None else f.siglen.Some? && SignatureIs(vs[|vs| - 1], f.siglen.value)
  }

  ghost predicate SaysLength(vs: seq<string>, f: Fields) {
    if vs == [] then f.contentLength == None else f.contentLength.Some? && LengthIs(vs[0], f.contentLength.value)
  }

  /** What a further header breaks, as the reason it is refused with. */
  ghost predicate Breaks(done: seq<Item>, i: Item, why: Reason) {
    if Is(i, SUBJECT) then why == SubjectLength && Values(done, SUBJECT) == [] && !(1 <= |i.value| <= 127)
    else if Is(i, KEY) then why == KeyLength && Values(done, KEY) == [] && !(1 <= |i.value| <= 63)
    else if Is(i, SIGNATURE_LENGTH) then why == SignatureLengthBad && !IsSignature(i.value)
    else if Is(i, CONTENT_LENGTH) then
      if Values(done, CONTENT_LENGTH) == [] && TooLong(i.value) then why == BodyTooLarge
      else why == ContentLengthBad && (Values(done, CONTENT_LENGTH) != [] || !IsLength(i.value))
    else false
  }

  ghost predicate TooLong(v: string) { |v| <= 9 && exists n: nat :: n > 65536 && Decimal(v, n) }

  lemma ValuesSnoc(done: seq<Item>, i: Item, id: string)
    ensures Values(done + [i], id) == Values(done, id) + if Is(i, id) then [i.value] else []
  {
    assert (done + [i])[..|done|] == done;
  }

  lemma {:induction false} ValuesPlus(a: seq<Item>, b: seq<Item>, id: string)
    ensures Values(a + b, id) == Values(a, id) + Values(b, id)
    decreases |b|
  {
    if b == [] {
      assert a + b == a;
    } else {
      var n := |b| - 1;
      assert a + b == (a + b[..n]) + [b[n]] && b == b[..n] + [b[n]];
      ValuesPlus(a, b[..n], id);
      ValuesSnoc(a + b[..n], b[n], id);
      ValuesSnoc(b[..n], b[n], id);
    }
  }

  lemma WithinPrefix(a: seq<Item>, b: seq<Item>)
    requires Within(a + b)
    ensures Within(a)
  {
    hide Values, Good, IsSignature, IsLength;
    ValuesPlus(a, b, SUBJECT);
    ValuesPlus(a, b, KEY);
    ValuesPlus(a, b, SIGNATURE_LENGTH);
    ValuesPlus(a, b, CONTENT_LENGTH);
    assert forall i :: i in a ==> i in a + b;
  }

  /** The five names, by length alone, are five. */
  lemma OneName(i: Item)
    ensures Is(i, SUBJECT) ==> |i.name| == 21
    ensures Is(i, KEY) ==> |i.name| == 10
    ensures Is(i, SIGNATURE_LENGTH) ==> |i.name| == 23
    ensures Is(i, CONTENT_LENGTH) ==> |i.name| == 14
    ensures Is(i, TRANSFER_ENCODING) ==> |i.name| == 17
  {
  }

  lemma NamesMatch(i: Item)
    ensures Is(i, SUBJECT) <==> Lower(i.name) == IDENT_HEADER
    ensures Is(i, KEY) <==> Lower(i.name) == KEY_HEADER
    ensures Is(i, SIGNATURE_LENGTH) <==> Lower(i.name) == SIGLEN_HEADER
    ensures Is(i, CONTENT_LENGTH) <==> Lower(i.name) == LENGTH_HEADER
    ensures Is(i, TRANSFER_ENCODING) <==> Lower(i.name) == CODING_HEADER
  {
    hide Is, Lower;
    NameMatches(i, SUBJECT);
    NameMatches(i, KEY);
    NameMatches(i, SIGNATURE_LENGTH);
    NameMatches(i, CONTENT_LENGTH);
    NameMatches(i, TRANSFER_ENCODING);
  }

  /** A further header is refused for what it breaks, and for nothing else. */
  lemma RefusedIff(done: seq<Item>, f: Fields, i: Item, why: Reason)
    requires Says(done, f)
    ensures Absorb(f, i.name, i.value) == Refused(why) <==> Breaks(done, i, why)
  {
    hide Is, Lower, Values, LengthOf, SignatureLengthOf, SignatureIs, LengthIs, Decimal;
    NamesMatch(i);
    OneName(i);
    SignatureSome(i.value);
    LengthSome(i.value);
  }

  lemma SignatureSome(v: string)
    ensures SignatureLengthOf(v) == Refused(SignatureLengthBad) <==> !IsSignature(v)
    ensures SignatureLengthOf(v).Refused? ==> SignatureLengthOf(v).reason == SignatureLengthBad
    ensures SignatureLengthOf(v).Ok? ==> SignatureIs(v, SignatureLengthOf(v).value)
  {
    hide SignatureLengthOf, SignatureIs;
    SignatureIff(v, 0);
    if SignatureLengthOf(v).Ok? {
      SignatureIff(v, SignatureLengthOf(v).value);
    }
    forall n: nat | SignatureIs(v, n)
      ensures SignatureLengthOf(v).Ok?
    {
      SignatureIff(v, n);
    }
  }

  lemma LengthSome(v: string)
    ensures LengthOf(v) == Refused(BodyTooLarge) <==> TooLong(v)
    ensures LengthOf(v).Ok? <==> IsLength(v)
    ensures LengthOf(v).Refused? ==> LengthOf(v).reason == BodyTooLarge || LengthOf(v).reason == ContentLengthBad
    ensures LengthOf(v).Ok? ==> LengthIs(v, LengthOf(v).value)
  {
    hide LengthOf, LengthIs, Decimal;
    LengthIff(v, 0);
    if LengthOf(v).Ok? {
      LengthIff(v, LengthOf(v).value);
    }
    forall n: nat | LengthIs(v, n)
      ensures LengthOf(v).Ok?
    {
      LengthIff(v, n);
    }
  }

  /** The limits hold one header further if and only if it breaks none. */
  lemma WithinSnoc(done: seq<Item>, i: Item)
    requires Within(done)
    ensures Within(done + [i]) <==> Good(i) && forall why :: !Breaks(done, i, why)
  {
    hide Is, Values, Good, SignatureIs, LengthIs, Decimal;
    ValuesSnoc(done, i, SUBJECT);
    ValuesSnoc(done, i, KEY);
    ValuesSnoc(done, i, SIGNATURE_LENGTH);
    ValuesSnoc(done, i, CONTENT_LENGTH);
    OneName(i);
    assert i in done + [i];
    assert TooLong(i.value) ==> !IsLength(i.value) by { LengthSome(i.value); }
    assert Breaks(done, i, SubjectLength) || Breaks(done, i, KeyLength) || Breaks(done, i, SignatureLengthBad)
        || Breaks(done, i, BodyTooLarge) || Breaks(done, i, ContentLengthBad) || forall why :: !Breaks(done, i, why);
  }

  /** An accepted header adds what it says to what was said. */
  lemma SaysSnoc(done: seq<Item>, f: Fields, i: Item)
    requires Says(done, f) && Absorb(f, i.name, i.value).Ok?
    ensures Says(done + [i], Absorb(f, i.name, i.value).value)
  {
    hide Is, Lower, Values, LengthOf, SignatureLengthOf, SignatureIs, LengthIs;
    NamesMatch(i);
    OneName(i);
    SignatureSome(i.value);
    LengthSome(i.value);
    ValuesSnoc(done, i, SUBJECT);
    ValuesSnoc(done, i, KEY);
    ValuesSnoc(done, i, SIGNATURE_LENGTH);
    ValuesSnoc(done, i, CONTENT_LENGTH);
    ValuesSnoc(done, i, TRANSFER_ENCODING);
  }

  function Texts(items: seq<Item>): seq<string> {
    if items == [] then [] else [Text(items[0])] + Texts(items[1..])
  }

  /** Printed headers are accepted if and only if they keep the limits, and are read
      as what they say. */
  lemma {:induction false} HeadersRead(done: seq<Item>, f: Fields, items: seq<Item>)
    requires Limits(done) && Says(done, f) && forall i :: i in items ==> Good(i)
    ensures var r := Headers(Texts(items), |done|, f);
            && (r.Ok? <==> Limits(done + items)) && (r.Ok? ==> Says(done + items, r.value))
    decreases |items|
  {
    hide Within, Says, Good, Text, Absorb, Header, Breaks;
    if items == [] {
      assert done + items == done;
    } else {
      var i, rest := items[0], items[1..];
      assert i in items;
      assert done + items == (done + [i]) + rest;
      assert Texts(items)[0] == Text(i) && Texts(items)[1..] == Texts(rest);
      StepRead(done, f, i);
      if Within(done + items) {
        WithinPrefix(done + [i], rest);
      }
      if |done| < 32 && Within(done + [i]) {
        assert forall j :: j in rest ==> j in items;
        HeadersRead(done + [i], HeaderStep(f, Text(i)).value, rest);
      }
    }
  }

  lemma StepRead(done: seq<Item>, f: Fields, i: Item)
    requires Within(done) && Says(done, f) && Good(i)
    ensures var r := HeaderStep(f, Text(i)); (r.Ok? <==> Within(done + [i])) && (r.Ok? ==> Says(done + [i], r.value))
  {
    hide Within, Says, Text, Absorb, Header, Breaks;
    TextIsRead(i);
    WithinSnoc(done, i);
    forall why
      ensures Absorb(f, i.name, i.value) == Refused(why) <==> Breaks(done, i, why)
    {
      RefusedIff(done, f, i, why);
    }
    if Absorb(f, i.name, i.value).Ok? {
      SaysSnoc(done, f, i);
    }
  }

  /** Accepted lines are printed headers. */
  lemma {:induction false} LinesAreItems(lines: seq<string>, count: nat, f: Fields) returns (items: seq<Item>)
    requires Headers(lines, count, f).Ok?
    ensures Texts(items) == lines && forall i :: i in items ==> Good(i)
    decreases |lines|
  {
    hide Good, Text, Header, Absorb;
    if lines == [] {
      items := [];
    } else {
      var name, value := Header(lines[0]).value.0, Header(lines[0]).value.1;
      HeaderIff(lines[0], name, value);
      var l, r :| Good(Item(name, l, value, r)) && lines[0] == Text(Item(name, l, value, r));
      var rest := LinesAreItems(lines[1..], count + 1, HeaderStep(f, lines[0]).value);
      items := [Item(name, l, value, r)] + rest;
      assert lines == [lines[0]] + lines[1..];
      assert items[1..] == rest;
    }
  }

  lemma NothingSaid()
    ensures Says([], NO_FIELDS) && Limits([])
  {
  }

  /** Header lines are accepted, giving `f`, if and only if they are printed from
      headers that keep the limits and say `f`. */
  lemma HeadersIff(lines: seq<string>, f: Fields)
    ensures Headers(lines, 0, NO_FIELDS) == Ok(f) <==>
            exists items :: lines == Texts(items) && Limits(items) && Says(items, f)
  {
    hide Within, Says, Good, Text, Headers, Texts;
    NothingSaid();
    if Headers(lines, 0, NO_FIELDS) == Ok(f) {
      var items := LinesAreItems(lines, 0, NO_FIELDS);
      HeadersRead([], NO_FIELDS, items);
      assert [] + items == items;
    }
    forall items | lines == Texts(items) && Limits(items) && Says(items, f)
      ensures Headers(lines, 0, NO_FIELDS) == Ok(f)
    {
      assert [] + items == items;
      WithinGood(items);
      HeadersRead([], NO_FIELDS, items);
      SaysOneThing(items, f, Headers(lines, 0, NO_FIELDS).value);
    }
  }

  lemma WithinGood(items: seq<Item>)
    requires Within(items)
    ensures forall i :: i in items ==> Good(i)
  {
  }

  lemma SaysOneThing(items: seq<Item>, f: Fields, g: Fields)
    requires Says(items, f) && Says(items, g)
    ensures f == g
  {
    hide Values, SignatureIs, LengthIs;
    var s, l := Values(items, SIGNATURE_LENGTH), Values(items, CONTENT_LENGTH);
    if s != [] {
      SignatureIff(s[|s| - 1], f.siglen.value);
      SignatureIff(s[|s| - 1], g.siglen.value);
    }
    if l != [] {
      LengthIff(l[0], f.contentLength.value);
      LengthIff(l[0], g.contentLength.value);
    }
  }
}
