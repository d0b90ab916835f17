/** The mechanism dispatch table (scripts/gen_p11_thunks.py:719-734, 864-867,
    936-967): rows are validated, sorted by code, rewritten for the build profile
    and emitted beside a binary search. */
module Dispatch {
  import opened CText

  const U32: nat := 0x1_0000_0000
  const REJECT := "dispatch_reject_fips"

  /** One row of the source table. */
  datatype Mech = Mech(name: string, value: nat, family: string, op: string, handler: string, fips: string)

  datatype Profile = NistApprovedOnly | AllMechanisms

  /** One row of the emitted table. */
  datatype Entry = Entry(ckm: nat, name: string, family: string, op: string, approved: bool, handler: string)

  // ---------------------------------------------------------------- validation

  datatype Fault = DuplicateName(row: nat) | DuplicateValue(row: nat) | EmptyHandler(row: nat) | BadFips(row: nat)

  const FIPS_STATUSES := {"approved", "non-approved", "deprecated"}

  predicate FipsOk(s: string) { s in FIPS_STATUSES }

  predicate RowsOk(mechs: seq<Mech>) {
    forall i :: 0 <= i < |mechs| ==> mechs[i].handler != "" && FipsOk(mechs[i].fips)
  }

  predicate NamesDistinct(mechs: seq<Mech>) {
    forall i, j :: 0 <= i < j < |mechs| ==> mechs[i].name != mechs[j].name
  }

  predicate ValuesDistinct(mechs: seq<Mech>) {
    forall i, j :: 0 <= i < j < |mechs| ==> mechs[i].value != mechs[j].value
  }

  predicate WellFormed(mechs: seq<Mech>) { RowsOk(mechs) && NamesDistinct(mechs) && ValuesDistinct(mechs) }

  /** Accepts exactly the well-formed tables; a fault is that of the first row
      that spoils the table. */
  method Validate(mechs: seq<Mech>) returns (fault: Option<Fault>)
    ensures fault.None? <==> WellFormed(mechs)
    ensures fault.Some? ==>
              var i := fault.value.row; i < |mechs| && WellFormed(mechs[..i]) && !WellFormed(mechs[..i + 1])
  {
    hide WellFormed;
    var names: set<string> := {};
    var values: map<nat, string> := map[];
    assert WellFormed(mechs[..0]) by { NoRows(mechs); }
    for i := 0 to |mechs|
      invariant WellFormed(mechs[..i])
      invariant forall n :: n in names <==> exists j :: 0 <= j < i && mechs[j].name == n
      invariant forall v :: v in values <==> exists j :: 0 <= j < i && mechs[j].value == v
      invariant forall j :: 0 <= j < i ==> values[mechs[j].value] == mechs[j].name
    {
      var m := mechs[i];
      OneMoreRow(mechs, i);
      if m.name in names {
        return Some(DuplicateName(i));
      }
      if m.value in values && values[m.value] != m.name {
        return Some(DuplicateValue(i));
      }
      names := names + {m.name};
      values := values[m.value := m.name];
      if m.handler == "" {
        return Some(EmptyHandler(i));
      }
      if m.fips != "approved" && m.fips != "non-approved" && m.fips != "deprecated" {
        return Some(BadFips(i));
      }
    }
    assert mechs[..|mechs|] == mechs;
    fault := None;
  }

  lemma NoRows(mechs: seq<Mech>)
    ensures WellFormed(mechs[..0])
  {
  }

  /** What one more row must bring, and that a spoilt prefix spoils the table. */
  lemma OneMoreRow(mechs: seq<Mech>, i: nat)
    requires i < |mechs| && WellFormed(mechs[..i])
    ensures WellFormed(mechs) ==> WellFormed(mechs[..i + 1])
    ensures WellFormed(mechs[..i + 1]) <==>
            && mechs[i].handler != "" && FipsOk(mechs[i].fips)
            && forall j :: 0 <= j < i ==> mechs[j].name != mechs[i].name && mechs[j].value != mechs[i].value
  {
    hide FipsOk;
    var upto := mechs[..i + 1];
    assert upto[i] == mechs[i] && forall j :: 0 <= j < i ==> upto[j] == mechs[j] == mechs[..i][j];
  }

  // ------------------------------------------------------------------- sorting

  function Insert(m: Mech, rows: seq<Mech>): (r: seq<Mech>) {
    if rows == [] || m.value <= rows[0].value then [m] + rows else [rows[0]] + Insert(m, rows[1..])
  }

  function SortByValue(mechs: seq<Mech>): (r: seq<Mech>) {
    if mechs == [] then [] else Insert(mechs[0], SortByValue(mechs[1..]))
  }

  predicate Ascending(rows: seq<Mech>) { forall i, j :: 0 <= i < j < |rows| ==> rows[i].value <= rows[j].value }

  lemma {:induction false} InsertAbove(m: Mech, rows: seq<Mech>, x: nat)
    requires x <= m.value && forall i :: 0 <= i < |rows| ==> x <= rows[i].value
    ensures forall i :: 0 <= i < |Insert(m, rows)| ==> x <= Insert(m, rows)[i].value
  {
    if rows != [] && m.value > rows[0].value {
      InsertAbove(m, rows[1..], x);
    }
  }

  lemma {:induction false} InsertAscends(m: Mech, rows: seq<Mech>)
    requires Ascending(rows)
    ensures Ascending(Insert(m, rows))
  {
    if rows != [] && m.value > rows[0].value {
      InsertAscends(m, rows[1..]);
      InsertAbove(m, rows[1..], rows[0].value);
    }
  }

  lemma {:induction false} InsertPermutes(m: Mech, rows: seq<Mech>)
    ensures multiset(Insert(m, rows)) == multiset{m} + multiset(rows)
  {
    if rows != [] && m.value > rows[0].value {
      InsertPermutes(m, rows[1..]);
      assert rows == [rows[0]] + rows[1..];
    }
  }

  /** Sorting orders the rows and neither drops nor adds one. */
  lemma {:induction false} SortKeeps(mechs: seq<Mech>)
    ensures Ascending(SortByValue(mechs)) && multiset(SortByValue(mechs)) == multiset(mechs)
  {
    if mechs != [] {
      SortKeeps(mechs[1..]);
      InsertAscends(mechs[0], SortByValue(mechs[1..]));
      InsertPermutes(mechs[0], SortByValue(mechs[1..]));
      assert mechs == [mechs[0]] + mechs[1..];
    }
  }

  // ------------------------------------------------------------------ emission

  function Row(m: Mech, profile: Profile): (e: Entry) {
    var approved := m.fips == "approved";
    var handler := if profile.NistApprovedOnly? && !approved then REJECT else m.handler;
    Entry(m.value % U32, m.name, m.family, m.op, approved, handler)
  }

  function Rows(mechs: seq<Mech>, profile: Profile): (t: seq<Entry>)
    ensures |t| == |mechs| && forall i :: 0 <= i < |t| ==> t[i] == Row(mechs[i], profile)
  {
    seq(|mechs|, i requires 0 <= i < |mechs| => Row(mechs[i], profile))
  }

  function Compile(mechs: seq<Mech>, profile: Profile): seq<Entry> { Rows(SortByValue(mechs), profile) }

  /** The emitted search between `lo` and `hi`, whatever the table. */
  function Search(table: seq<Entry>, ckm: nat, lo: nat, hi: nat): Option<Entry>
    requires lo <= hi <= |table|
    decreases hi - lo
  {
    if lo == hi then None
    else
      var mid := (lo + hi) / 2;
      if table[mid].ckm == ckm then Some(table[mid])
      else if table[mid].ckm < ckm then Search(table, ckm, mid + 1, hi)
      else Search(table, ckm, lo, mid)
  }

  method Lookup(table: seq<Entry>, ckm: nat) returns (e: Option<Entry>)
    ensures e == Search(table, ckm, 0, |table|)
  {
    var lo, hi := 0, |table|;
    while lo < hi
      invariant lo <= hi <= |table|
      invariant Search(table, ckm, lo, hi) == Search(table, ckm, 0, |table|)
    {
      var mid := (lo + hi) / 2;
      if table[mid].ckm == ckm {
        return Some(table[mid]);
      } else if table[mid].ckm < ckm {
        lo := mid + 1;
      } else {
        hi := mid;
      }
    }
    e := None;
  }

  // ------------------------------------------------------------------- meaning

  /** The rows the search between `lo` and `hi` probes before row `i`. */
  function Way(lo: nat, hi: nat, i: nat): (ps: set<nat>)
    requires lo <= i < hi
    ensures i !in ps && forall p :: p in ps ==> lo <= p < hi
    decreases hi - lo
  {
    var mid := (lo + hi) / 2;
    if mid == i then {}
    else if mid < i then {mid} + Way(mid + 1, hi, i)
    else {mid} + Way(lo, mid, i)
  }

  /** A probe at row `p` sends the search for the code of row `i` towards row `i`. */
  predicate Points(table: seq<Entry>, p: nat, i: nat)
    requires p < |table| && i < |table|
  {
    if p < i then table[p].ckm < table[i].ckm else table[p].ckm > table[i].ckm
  }

  /** Every probe on the way to row `i` points to it. */
  predicate ReachedWithin(table: seq<Entry>, lo: nat, hi: nat, i: nat)
    requires lo <= i < hi <= |table|
  {
    forall p :: p in Way(lo, hi, i) ==> Points(table, p, i)
  }

  predicate Reached(table: seq<Entry>, i: nat)
    requires i < |table|
  {
    ReachedWithin(table, 0, |table|, i)
  }

  /** Where the search ends, on any table: at a row of that code that is reached,
      and there is at most one. */
  lemma {:induction false} SearchEnds(table: seq<Entry>, ckm: nat, lo: nat, hi: nat) returns (i: int)
    requires lo <= hi <= |table|
    ensures i == -1 || lo <= i < hi
    ensures i == -1 ==> Search(table, ckm, lo, hi) == None
    ensures i >= 0 ==> Search(table, ckm, lo, hi) == Some(table[i])
    ensures forall k :: lo <= k < hi ==> (table[k].ckm == ckm && ReachedWithin(table, lo, hi, k) <==> k == i)
    decreases hi - lo
  {
    i := -1;
    if lo < hi {
      var mid := (lo + hi) / 2;
      if table[mid].ckm == ckm {
        i := mid;
      } else if table[mid].ckm < ckm {
        i := SearchEnds(table, ckm, mid + 1, hi);
      } else {
        i := SearchEnds(table, ckm, lo, mid);
      }
      forall k | lo <= k < hi
        ensures table[k].ckm == ckm && ReachedWithin(table, lo, hi, k) <==> k == i
      {
        WayStep(table, lo, hi, k);
      }
    }
  }

  lemma WayStep(table: seq<Entry>, lo: nat, hi: nat, k: nat)
    requires lo <= k < hi <= |table|
    ensures var mid := (lo + hi) / 2;
            ReachedWithin(table, lo, hi, k) <==>
            || k == mid
            || (mid < k && Points(table, mid, k) && ReachedWithin(table, mid + 1, hi, k))
            || (k < mid && Points(table, mid, k) && ReachedWithin(table, lo, mid, k))
  {
  }

  /** What the emitted lookup answers, for every table and every code: the row with
      that emitted code that is reached, or nothing. */
  lemma AnswerIff(mechs: seq<Mech>, profile: Profile, ckm: nat, k: nat)
    requires WellFormed(mechs) && k < |mechs|
    ensures |Compile(mechs, profile)| == |mechs|
    ensures var t := Compile(mechs, profile);
            Search(t, ckm, 0, |t|) == Some(t[k]) <==> t[k].ckm == ckm && Reached(t, k)
  {
    hide Search, Way, SortByValue, WellFormed;
    var t := Compile(mechs, profile);
    SortKeeps(mechs);
    SameSize(mechs, SortByValue(mechs));
    var i := SearchEnds(t, ckm, 0, |t|);
    if i >= 0 && t[i] == t[k] {
      NamesApart(mechs, SortByValue(mechs), i, k);
    }
  }

  lemma SameSize(a: seq<Mech>, b: seq<Mech>)
    requires multiset(a) == multiset(b)
    ensures |a| == |b|
  {
    assert |multiset(a)| == |a| && |multiset(b)| == |b|;
  }

  /** Rows of a permutation of a table with distinct names differ in name. */
  lemma NamesApart(mechs: seq<Mech>, rows: seq<Mech>, i: nat, j: nat)
    requires multiset(rows) == multiset(mechs) && WellFormed(mechs) && i < |rows| && j < |rows|
    requires rows[i].name == rows[j].name
    ensures i == j
  {
    assert rows[i] in multiset(rows) && rows[j] in multiset(rows);
    assert rows[i] in mechs && rows[j] in mechs;
    if i != j {
      TwiceIn(rows, if i < j then i else j, if i < j then j else i);
      OnceIn(mechs, rows[i]);
    }
  }

  lemma TwiceIn(s: seq<Mech>, i: nat, j: nat)
    requires i < j < |s| && s[i] == s[j]
    ensures multiset(s)[s[i]] >= 2
  {
    assert s == s[..j] + s[j..];
    assert s[..j][i] in multiset(s[..j]) && s[j..][0] in multiset(s[j..]);
  }

  lemma {:induction false} OnceIn(s: seq<Mech>, m: Mech)
    requires NamesDistinct(s)
    ensures multiset(s)[m] <= 1
  {
    if s != [] {
      assert s == [s[0]] + s[1..];
      OnceIn(s[1..], m);
      if s[0] == m {
        assert m !in s[1..];
      }
    }
  }

  /** The lookup answers code `ckm` with the source row of that value, rewritten for
      the profile, and with nothing when no row has it. */
  predicate AnswersRight(mechs: seq<Mech>, profile: Profile, ckm: nat) {
    var t := Compile(mechs, profile);
    && (forall m :: m in mechs && m.value == ckm ==> Search(t, ckm, 0, |t|) == Some(Row(m, profile)))
    && ((forall m :: m in mechs ==> m.value != ckm) ==> Search(t, ckm, 0, |t|) == None)
  }

  /** Compilation preserves the meaning of the table. */
  ghost predicate Exact(mechs: seq<Mech>, profile: Profile) {
    forall ckm: nat :: ckm < U32 ==> AnswersRight(mechs, profile, ckm)
  }

  /** The rows whose value fits the emitted code are the ones that are reached. */
  predicate FitsExactlyWhenReached(mechs: seq<Mech>, profile: Profile) {
    var rows, t := SortByValue(mechs), Compile(mechs, profile);
    forall k :: 0 <= k < |t| ==> (Reached(t, k) <==> rows[k].value < U32)
  }

  /** Compilation preserves meaning: for every accepted table the emitted search
      answers every code with exactly the source row of that value or none, if and
      only if the rows it reaches are those whose value fits 32 bits. A row out of
      range must not be reached by its wrapped code, nor point a search for a row in
      range away from it. */
  lemma DispatchExact(mechs: seq<Mech>, profile: Profile)
    requires WellFormed(mechs)
    ensures Exact(mechs, profile) <==> FitsExactlyWhenReached(mechs, profile)
  {
    hide WellFormed, Search, Reached, SortByValue, Row;
    SortKeeps(mechs);
    if FitsExactlyWhenReached(mechs, profile) {
      forall ckm: nat | ckm < U32
        ensures AnswersRight(mechs, profile, ckm)
      {
        ReachedAnswers(mechs, profile, ckm);
      }
    }
    if Exact(mechs, profile) {
      var t := Compile(mechs, profile);
      forall k: nat | k < |t|
        ensures Reached(t, k) <==> SortByValue(mechs)[k].value < U32
      {
        ExactReaches(mechs, profile, k);
      }
    }
  }

  lemma CodeOf(m: Mech, profile: Profile)
    ensures Row(m, profile).ckm < U32 && Row(m, profile).name == m.name
    ensures m.value < U32 ==> Row(m, profile).ckm == m.value
  {
  }

  lemma RowAt(mechs: seq<Mech>, m: Mech) returns (k: nat)
    requires m in mechs
    ensures k < |SortByValue(mechs)| && SortByValue(mechs)[k] == m
  {
    SortKeeps(mechs);
    assert m in multiset(mechs);
    assert m in SortByValue(mechs);
    k :| 0 <= k < |SortByValue(mechs)| && SortByValue(mechs)[k] == m;
  }

  lemma ReachedAnswers(mechs: seq<Mech>, profile: Profile, ckm: nat)
    requires WellFormed(mechs) && FitsExactlyWhenReached(mechs, profile) && ckm < U32
    ensures AnswersRight(mechs, profile, ckm)
  {
    hide WellFormed, Search, Reached, SortByValue, Row;
    var rows, t := SortByValue(mechs), Compile(mechs, profile);
    SortKeeps(mechs);
    SameSize(mechs, rows);
    forall m | m in mechs && m.value == ckm
      ensures Search(t, ckm, 0, |t|) == Some(Row(m, profile))
    {
      var k := RowAt(mechs, m);
      CodeOf(m, profile);
      AnswerIff(mechs, profile, ckm, k);
    }
    var i := SearchEnds(t, ckm, 0, |t|);
    if i >= 0 {
      AnswerIff(mechs, profile, ckm, i);
      CodeOf(rows[i], profile);
      assert rows[i] in multiset(rows);
      assert rows[i] in mechs && rows[i].value == ckm;
    }
  }

  lemma ExactReaches(mechs: seq<Mech>, profile: Profile, k: nat)
    requires WellFormed(mechs) && Exact(mechs, profile) && k < |Compile(mechs, profile)|
    ensures Reached(Compile(mechs, profile), k) <==> SortByValue(mechs)[k].value < U32
  {
    hide WellFormed, Search, Reached, SortByValue, Row;
    var rows, t := SortByValue(mechs), Compile(mechs, profile);
    SortKeeps(mechs);
    SameSize(mechs, rows);
    CodeOf(rows[k], profile);
    assert rows[k] in multiset(rows);
    assert rows[k] in mechs;
    AnswerIff(mechs, profile, t[k].ckm, k);
    assert AnswersRight(mechs, profile, t[k].ckm);
    if Reached(t, k) {
      if m :| m in mechs && m.value == t[k].ckm {
        var j := RowAt(mechs, m);
        CodeOf(m, profile);
        NamesApart(mechs, rows, j, k);
      }
    }
  }

  predicate InRange(mechs: seq<Mech>) { forall m :: m in mechs ==> m.value < U32 }

  /** In particular, when all the values fit. */
  lemma InRangeIsExact(mechs: seq<Mech>, profile: Profile)
    requires WellFormed(mechs) && InRange(mechs)
    ensures Exact(mechs, profile)
  {
    hide WellFormed, Search, Exact;
    var rows, t := SortByValue(mechs), Compile(mechs, profile);
    SortKeeps(mechs);
    forall k | 0 <= k < |t|
      ensures Reached(t, k) && rows[k].value < U32
    {
      assert rows[k] in multiset(rows);
      forall p | p in Way(0, |t|, k)
        ensures Points(t, p, k)
      {
        assert rows[p] in multiset(rows);
        CodeOf(rows[p], profile);
        CodeOf(rows[k], profile);
        ValuesApart(mechs, rows, p, k);
      }
    }
    DispatchExact(mechs, profile);
  }

  lemma ValuesApart(mechs: seq<Mech>, rows: seq<Mech>, i: nat, j: nat)
    requires multiset(rows) == multiset(mechs) && WellFormed(mechs) && i < |rows| && j < |rows| && i != j
    ensures rows[i].value != rows[j].value
  {
    if rows[i].value == rows[j].value {
      assert rows[i] in multiset(rows) && rows[j] in multiset(rows);
      assert rows[i] in mechs && rows[j] in mechs;
      NamesApart(mechs, rows, i, j);
    }
  }

  /** An entry as the strict profile has it: rejected unless approved. */
  function Screened(e: Entry): Entry { if e.approved then e else e.(handler := REJECT) }

  /** What a caller gets, told by the source row alone: for every accepted table in
      range and each of its rows, the lookup of the row's value answers with its name,
      family and operation, marked approved exactly when its status is; its own
      handler answers in the full profile, and in the strict one if it is approved. */
  lemma LookupIsSourceRow(mechs: seq<Mech>, profile: Profile, m: Mech)
    requires WellFormed(mechs) && InRange(mechs) && m in mechs
    ensures var t := Compile(mechs, profile); var e := Search(t, m.value, 0, |t|);
            && e.Some? && e.value.ckm == m.value
            && e.value.name == m.name && e.value.family == m.family && e.value.op == m.op
            && (e.value.approved <==> m.fips == "approved")
            && (profile == AllMechanisms || m.fips == "approved" ==> e.value.handler == m.handler)
            && (profile == NistApprovedOnly && m.fips != "approved" ==> e.value.handler == "dispatch_reject_fips")
  {
    hide Search, Compile, WellFormed;
    InRangeIsExact(mechs, profile);
    assert AnswersRight(mechs, profile, m.value);
  }

  /** And a code no row has is not answered. */
  lemma UnknownCodeIsNone(mechs: seq<Mech>, profile: Profile, ckm: nat)
    requires WellFormed(mechs) && InRange(mechs) && ckm < U32 && forall m :: m in mechs ==> m.value != ckm
    ensures var t := Compile(mechs, profile); Search(t, ckm, 0, |t|) == None
  {
    hide Search, Compile, WellFormed;
    InRangeIsExact(mechs, profile);
    assert AnswersRight(mechs, profile, ckm);
  }

  /** The two profiles answer the same codes and differ in nothing but the handler,
      for every table: approved rows keep theirs, all others are rejected in the
      strict profile. */
  lemma ProfilesAgree(mechs: seq<Mech>, ckm: nat)
    ensures var s, a := Compile(mechs, NistApprovedOnly), Compile(mechs, AllMechanisms);
            var strict, all := Search(s, ckm, 0, |s|), Search(a, ckm, 0, |a|);
            && (strict.None? <==> all.None?)
            && (strict.Some? ==> strict.value == Screened(all.value))
  {
    SearchesAgree(SortByValue(mechs), ckm, 0, |SortByValue(mechs)|);
  }

  lemma {:induction false} SearchesAgree(rows: seq<Mech>, ckm: nat, lo: nat, hi: nat)
    requires lo <= hi <= |rows|
    ensures var strict := Search(Rows(rows, NistApprovedOnly), ckm, lo, hi);
            var all := Search(Rows(rows, AllMechanisms), ckm, lo, hi);
            && (strict.None? <==> all.None?)
            && (strict.Some? ==> strict.value == Screened(all.value))
    decreases hi - lo
  {
    hide Row;
    if lo < hi {
      var mid := (lo + hi) / 2;
      RowsAgree(rows[mid]);
      if Row(rows[mid], AllMechanisms).ckm < ckm {
        SearchesAgree(rows, ckm, mid + 1, hi);
      } else if Row(rows[mid], AllMechanisms).ckm > ckm {
        SearchesAgree(rows, ckm, lo, mid);
      }
    }
  }

  lemma RowsAgree(m: Mech)
    ensures var strict, all := Row(m, NistApprovedOnly), Row(m, AllMechanisms);
            strict == Screened(all)
  {
  }

  /** Validation alone is not enough: a lone code that wraps is answered with a row
      it does not name ... */
  lemma WrappedCodeAnswers(profile: Profile)
    ensures var m := Mech("CKM_X", U32 + 1, "X", "sign", "h", "approved");
            var t := Compile([m], profile);
            && WellFormed([m]) && Search(t, 1, 0, |t|) == Some(Row(m, profile))
            && !Exact([m], profile)
  {
    var m := Mech("CKM_X", U32 + 1, "X", "sign", "h", "approved");
    assert SortByValue([m]) == [m] by { assert SortByValue([m][1..]) == []; }
    assert !AnswersRight([m], profile, 1);
  }

  /** ... and a code that wraps below its neighbour hides it. */
  lemma WrappedCodeHides(profile: Profile)
    ensures var m := Mech("CKM_X", 5, "X", "sign", "h", "approved");
            var n := Mech("CKM_Y", U32 + 3, "X", "sign", "h", "approved");
            var t := Compile([m, n], profile);
            WellFormed([m, n]) && Search(t, 5, 0, |t|) == None
  {
    var m := Mech("CKM_X", 5, "X", "sign", "h", "approved");
    var n := Mech("CKM_Y", U32 + 3, "X", "sign", "h", "approved");
    assert SortByValue([n]) == [n] by { assert SortByValue([n][1..]) == []; }
    assert [m, n][1..] == [n];
    assert SortByValue([m, n]) == [m, n];
    var t := Compile([m, n], profile);
    assert t[1].ckm == 3 && Search(t, 5, 2, 2) == None;
  }
}
