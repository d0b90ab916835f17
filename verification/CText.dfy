/** The C library text routines that the audit log, the refusal budget and the
    request reader lean on: `strstr`, `%llu` and `%lld`, `strtoull`, `fgets`. */
module CText {

  datatype Option<+T> = None | Some(value: T)

  type Byte = b: int | 0 <= b < 256

  const U64: nat := 0x1_0000_0000_0000_0000

  // ------------------------------------------------------------------ strstr

  predicate OccursAt(s: string, pat: string, i: int) {
    0 <= i && i + |pat| <= |s| && s[i..i + |pat|] == pat
  }

  /** The first occurrence of `pat` at or after `from`, or -1. */
  function StrStr(s: string, pat: string, from: nat := 0): (r: int)
    ensures r == -1 || from <= r
    ensures r != -1 ==> OccursAt(s, pat, r)
    ensures forall i :: from <= i && OccursAt(s, pat, i) ==> r != -1 && r <= i
    decreases |s| - from
  {
    if from + |pat| > |s| then -1
    else if s[from..from + |pat|] == pat then from
    else StrStr(s, pat, from + 1)
  }

  /** A position that holds an occurrence with none before it is where the search lands. */
  lemma StrStrLands(s: string, pat: string, at: nat)
    requires OccursAt(s, pat, at)
    requires forall i :: 0 <= i < at ==> !OccursAt(s, pat, i)
    ensures StrStr(s, pat) == at
  {
  }

  /** Text added behind an occurrence does not move the first one. */
  lemma StrStrPrefix(a: string, b: string, pat: string)
    requires StrStr(a, pat) >= 0
    ensures StrStr(a + b, pat) == StrStr(a, pat)
  {
    var at := StrStr(a, pat);
    assert (a + b)[at..at + |pat|] == a[at..at + |pat|];
    forall i | 0 <= i < at
      ensures !OccursAt(a + b, pat, i)
    {
      assert i + |pat| <= |a|;
      assert (a + b)[i..i + |pat|] == a[i..i + |pat|];
      assert !OccursAt(a, pat, i);
    }
    StrStrLands(a + b, pat, at);
  }

  /** A prefix that holds the first occurrence has it in the same place. */
  lemma StrStrCut(s: string, pat: string, kept: nat)
    requires StrStr(s, pat) >= 0 && StrStr(s, pat) + |pat| <= kept <= |s|
    ensures StrStr(s[..kept], pat) == StrStr(s, pat)
  {
    hide StrStr, OccursAt;
    var a, b, at := s[..kept], s[kept..], StrStr(s, pat);
    assert s == a + b;
    OccursCut(s, pat, kept, at);
    assert StrStr(a, pat) >= 0;
    StrStrPrefix(a, b, pat);
  }

  lemma OccursCut(s: string, pat: string, kept: nat, at: nat)
    requires kept <= |s| && at + |pat| <= kept && OccursAt(s, pat, at)
    ensures OccursAt(s[..kept], pat, at)
  {
    assert s[..kept][at..at + |pat|] == s[at..at + |pat|];
  }

  lemma SliceOfSlice(s: string, a: nat, b: nat, lo: nat, hi: nat)
    requires lo <= hi <= b - a && a <= b <= |s|
    ensures s[a..b][lo..hi] == s[a + lo..a + hi]
  {
    forall k | 0 <= k < hi - lo
      ensures s[a..b][lo..hi][k] == s[a + lo..a + hi][k]
    {
      assert s[a..b][lo + k] == s[a + lo + k];
    }
  }

  // ----------------------------------------------------------------- numbers

  predicate IsDigit(c: char) { '0' <= c <= '9' }

  function DigitVal(c: char): nat
    requires IsDigit(c)
  {
    c as int - '0' as int
  }

  function DigitChar(d: nat): (c: char)
    requires d < 10
    ensures IsDigit(c) && DigitVal(c) == d
  {
    ('0' as int + d) as char
  }

  predicate AllDigits(s: string) { forall c :: c in s ==> IsDigit(c) }

  /** `%llu`. */
  function Dec(n: nat): (s: string)
    ensures |s| >= 1 && AllDigits(s)
  {
    if n < 10 then [DigitChar(n)] else Dec(n / 10) + [DigitChar(n % 10)]
  }

  /** `%lld`. */
  function DecInt(i: int): (s: string) {
    if i < 0 then "-" + Dec(-i) else Dec(i)
  }

  function Pow10(k: nat): (r: nat)
    ensures r >= 1
  {
    if k == 0 then 1 else 10 * Pow10(k - 1)
  }

  lemma {:induction false} DecWidth(n: nat, k: nat)
    requires k >= 1 && n < Pow10(k)
    ensures |Dec(n)| <= k
    decreases k
  {
    if n >= 10 {
      assert k >= 2 by { assert Pow10(1) == 10; }
      DecWidth(n / 10, k - 1);
    }
  }

  /** The value of the leading run of digits, on top of `acc`. */
  function LeadingValue(s: string, acc: nat := 0): nat {
    if s == "" || !IsDigit(s[0]) then acc else LeadingValue(s[1..], acc * 10 + DigitVal(s[0]))
  }

  lemma {:induction false} LeadingValueOfRun(run: string, tail: string, acc: nat)
    requires AllDigits(run)
    ensures LeadingValue(run + tail, acc) == LeadingValue(tail, LeadingValue(run, acc))
    decreases |run|
  {
    if run == "" {
      assert run + tail == tail;
    } else {
      assert (run + tail)[1..] == run[1..] + tail;
      LeadingValueOfRun(run[1..], tail, acc * 10 + DigitVal(run[0]));
    }
  }

  lemma {:induction false} LeadingValueOfDec(n: nat)
    ensures LeadingValue(Dec(n)) == n
  {
    if n < 10 {
      assert LeadingValue(Dec(n)[1..], n) == n;
    } else {
      LeadingValueOfDec(n / 10);
      LeadingValueOfRun(Dec(n / 10), [DigitChar(n % 10)], 0);
      assert LeadingValue([DigitChar(n % 10)], n / 10) == LeadingValue("", (n / 10) * 10 + n % 10);
    }
  }

  /** A printed number reads back as itself, whatever non-digit text follows. */
  lemma PrintedNumberReads(n: nat, tail: string)
    requires tail == "" || !IsDigit(tail[0])
    ensures LeadingValue(Dec(n) + tail) == n
  {
    LeadingValueOfRun(Dec(n), tail, 0);
    LeadingValueOfDec(n);
  }

  predicate IsSpace(c: char) { c == ' ' || 9 <= c as int <= 13 }

  function SkipSpace(s: string): string {
    if s != "" && IsSpace(s[0]) then SkipSpace(s[1..]) else s
  }

  /** `strtoull(s, NULL, 10)`: leading blanks, an optional sign, then digits;
      out of range saturates, and a minus sign negates modulo 2^64. */
  function StrToUll(s: string): (r: nat)
    ensures r < U64
  {
    var t := SkipSpace(s);
    var minus := t != "" && t[0] == '-';
    var signed := t != "" && (t[0] == '-' || t[0] == '+');
    var v := LeadingValue(if signed then t[1..] else t);
    if v >= U64 then U64 - 1 else if minus then (U64 - v) % U64 else v
  }

  lemma StrToUllOfDec(n: nat, tail: string)
    requires n < U64
    requires tail == "" || !IsDigit(tail[0])
    ensures StrToUll(Dec(n) + tail) == n
  {
    PrintedNumberReads(n, tail);
    assert (Dec(n) + tail)[0] == Dec(n)[0];
    assert Dec(n)[0] in Dec(n);
  }

  lemma {:induction false} SkipsSpace(blanks: string, s: string)
    requires (forall c :: c in blanks ==> IsSpace(c)) && (s == "" || !IsSpace(s[0]))
    ensures SkipSpace(blanks + s) == s
  {
    if blanks == "" {
      assert blanks + s == s;
    } else {
      assert (blanks + s)[1..] == blanks[1..] + s;
      SkipsSpace(blanks[1..], s);
    }
  }

  /** Any number, sign and blanks in front: too wide saturates, a minus sign wraps. */
  lemma StrToUllReads(blanks: string, sign: string, n: nat, tail: string)
    requires forall c :: c in blanks ==> c in " \t\n\r" || c as int == 11 || c as int == 12
    requires sign in ["", "+", "-"] && (tail == "" || !('0' <= tail[0] <= '9'))
    ensures StrToUll(blanks + (sign + (Dec(n) + tail))) ==
            if n >= U64 then U64 - 1 else if sign == "-" && n > 0 then U64 - n else n
  {
    hide SkipSpace;
    var digits := Dec(n) + tail;
    assert digits[0] == Dec(n)[0] && Dec(n)[0] in Dec(n);
    SkipsSpace(blanks, sign + digits);
    PrintedNumberReads(n, tail);
    if sign == "" {
      assert sign + digits == digits;
    } else {
      assert (sign + digits)[1..] == digits;
    }
  }

  // ------------------------------------------------------------------- fgets

  const NUL: char := 0 as char

  /** How many characters one `fgets` with room for `cap` consumes. */
  function ChunkLen(s: string, cap: nat): (n: nat)
    requires cap >= 1
    ensures n <= |s| && n <= cap
    ensures s != "" ==> n >= 1
  {
    if s == "" then 0
    else if s[0] == '\n' || cap == 1 then 1
    else 1 + ChunkLen(s[1..], cap - 1)
  }

  /** The successive reads of a file by `fgets`. */
  function Chunks(s: string, cap: nat): (r: seq<string>)
    requires cap >= 1
    decreases |s|
  {
    if s == "" then []
    else var n := ChunkLen(s, cap); [s[..n]] + Chunks(s[n..], cap)
  }

  lemma {:induction false} ChunkLenOfLine(line: string, rest: string, cap: nat)
    requires 1 <= |line| <= cap
    requires line[|line| - 1] == '\n' && '\n' !in line[..|line| - 1]
    ensures ChunkLen(line + rest, cap) == |line|
    decreases |line|
  {
    if |line| > 1 {
      assert line[0] == line[..|line| - 1][0];
      assert (line + rest)[1..] == line[1..] + rest;
      assert line[1..][..|line| - 2] == line[..|line| - 1][1..];
      ChunkLenOfLine(line[1..], rest, cap - 1);
    }
  }

  /** A newline-terminated line that fits the buffer is read whole. */
  lemma ChunksOfLine(line: string, rest: string, cap: nat)
    requires 1 <= |line| <= cap
    requires line[|line| - 1] == '\n' && '\n' !in line[..|line| - 1]
    ensures Chunks(line + rest, cap) == [line] + Chunks(rest, cap)
  {
    ChunkLenOfLine(line, rest, cap);
    assert (line + rest)[..|line|] == line && (line + rest)[|line|..] == rest;
  }

  function Glued(pieces: seq<string>): string {
    if pieces == [] then "" else pieces[0] + Glued(pieces[1..])
  }

  /** One read: it stops behind a newline, at a full buffer or at the end of the file,
      and nowhere else. */
  predicate OneRead(piece: string, cap: nat, last: bool) {
    && 1 <= |piece| <= cap && '\n' !in piece[..|piece| - 1]
    && (piece[|piece| - 1] == '\n' || |piece| == cap || last)
  }

  lemma {:induction false} ChunkIsRead(s: string, cap: nat)
    requires cap >= 1 && s != ""
    ensures var n := ChunkLen(s, cap); OneRead(s[..n], cap, n == |s|)
  {
    if s[0] != '\n' && cap > 1 && |s| > 1 {
      ChunkIsRead(s[1..], cap - 1);
      var n := ChunkLen(s, cap);
      assert s[..n] == [s[0]] + s[1..][..n - 1];
      assert s[..n][..n - 1] == [s[0]] + s[1..][..n - 1][..n - 2];
    }
  }

  /** The reads lose nothing and cut nowhere else, whatever the file holds. */
  lemma {:induction false} ChunksExact(s: string, cap: nat)
    requires cap >= 1
    ensures Glued(Chunks(s, cap)) == s
    ensures forall i :: 0 <= i < |Chunks(s, cap)| ==> OneRead(Chunks(s, cap)[i], cap, i == |Chunks(s, cap)| - 1)
    decreases |s|
  {
    hide ChunkLen, OneRead;
    if s != "" {
      var n := ChunkLen(s, cap);
      ChunkIsRead(s, cap);
      ChunksExact(s[n..], cap);
      var rest := Chunks(s[n..], cap);
      assert s == s[..n] + s[n..];
      assert Chunks(s, cap) == [s[..n]] + rest && Chunks(s, cap)[1..] == rest;
      assert n < |s| ==> s[n..] != "" && rest != [];
    }
  }

  /** What the string functions see of a buffer: everything before the first NUL. */
  function CString(s: string): (r: string)
    ensures NUL !in r && r <= s
    ensures NUL !in s ==> r == s
  {
    if s == "" || s[0] == NUL then "" else [s[0]] + CString(s[1..])
  }
}
