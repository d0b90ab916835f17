/** ECDSA signatures between the fixed-width r || s form and DER
    (src/fhsm_ecdsa_raw.c): ECDSA-Sig-Value of section 2.2.3 of RFC 3279, with the
    INTEGER and definite-length rules of sections 8.3 and 10.1 of ITU-T X.690.
    Big numbers are naturals. */
module EcdsaRaw {
  import opened CText

  // ------------------------------------------------------- big-endian naturals

  function Value(bs: seq<Byte>): (n: nat) {
    if bs == [] then 0 else Value(bs[..|bs| - 1]) * 256 + bs[|bs| - 1]
  }

  /** `BN_bn2bin`: no leading zero octet, and none at all for zero. */
  function Octets(n: nat): (bs: seq<Byte>)
    ensures bs == [] <==> n == 0
    ensures bs != [] ==> bs[0] != 0
  {
    if n == 0 then [] else Octets(n / 256) + [n % 256]
  }

  function Zeros(k: nat): (z: seq<Byte>)
    ensures |z| == k
  {
    seq(k, i => 0)
  }

  /** `n` right-aligned in `width` octets. */
  function Padded(n: nat, width: nat): (bs: seq<Byte>)
    requires |Octets(n)| <= width
    ensures |bs| == width
  {
    Zeros(width - |Octets(n)|) + Octets(n)
  }

  lemma {:induction false} ValueOfOctets(n: nat)
    ensures Value(Octets(n)) == n
  {
    if n > 0 {
      var front := Octets(n / 256);
      ValueOfOctets(n / 256);
      assert (front + [n % 256])[..|front|] == front;
    }
  }

  lemma {:induction false} ValueOfZeros(k: nat, bs: seq<Byte>)
    ensures Value(Zeros(k) + bs) == Value(bs)
    decreases k + |bs|
  {
    var all := Zeros(k) + bs;
    if bs != [] {
      assert all[..|all| - 1] == Zeros(k) + bs[..|bs| - 1];
      ValueOfZeros(k, bs[..|bs| - 1]);
    } else if k > 0 {
      assert all[..|all| - 1] == Zeros(k - 1) + [];
      ValueOfZeros(k - 1, []);
    }
  }

  lemma {:induction false} PaddedOfValue(bs: seq<Byte>)
    ensures |Octets(Value(bs))| <= |bs| && Padded(Value(bs), |bs|) == bs
  {
    if bs != [] {
      var front, last := bs[..|bs| - 1], bs[|bs| - 1];
      PaddedOfValue(front);
      var n := Value(bs);
      assert n / 256 == Value(front) && n % 256 == last;
      assert bs == front + [last];
      if n > 0 {
        assert Zeros(|bs| - |Octets(n)|) + (Octets(n / 256) + [last]) == Padded(Value(front), |front|) + [last];
      } else {
        assert Zeros(|bs|) == Zeros(|front|) + [0];
      }
    }
  }

  lemma PaddedTight(n: nat, width: nat)
    requires |Octets(n)| <= width
    ensures |Octets(n)| == width ==> Padded(n, width) == Octets(n)
    ensures |Octets(n)| < width ==> Padded(n, width)[0] == 0
  {
  }

  /** Octets without a leading zero are the shortest of their value. */
  lemma OctetsOfValue(bs: seq<Byte>)
    requires bs == [] || bs[0] != 0
    ensures Octets(Value(bs)) == bs
  {
    PaddedOfValue(bs);
    PaddedTight(Value(bs), |bs|);
  }

  // ----------------------------------------------------------------------- DER

  predicate LengthFits(n: nat) { n < 128 || |Octets(n)| <= 126 }

  function Length(n: nat): (bs: seq<Byte>)
    requires LengthFits(n)
  {
    if n < 128 then [n] else [128 + |Octets(n)|] + Octets(n)
  }

  function Tlv(tag: Byte, content: seq<Byte>): (bs: seq<Byte>)
    requires LengthFits(|content|)
  {
    [tag] + Length(|content|) + content
  }

  const INTEGER: Byte := 0x02
  const SEQUENCE: Byte := 0x30

  /** The shortest two's complement form: a sign octet where the top bit is set. */
  function IntContent(n: nat): (bs: seq<Byte>)
    ensures bs != []
  {
    var m := Octets(n);
    if m == [] || m[0] >= 128 then [0] + m else m
  }

  predicate Encodable(r: nat, s: nat) {
    && LengthFits(|IntContent(r)|) && LengthFits(|IntContent(s)|)
    && LengthFits(|Tlv(INTEGER, IntContent(r))| + |Tlv(INTEGER, IntContent(s))|)
  }

  function Signature(r: nat, s: nat): (der: seq<Byte>)
    requires Encodable(r, s)
  {
    Tlv(SEQUENCE, Tlv(INTEGER, IntContent(r)) + Tlv(INTEGER, IntContent(s)))
  }

  /** The length at the front, and what follows it. */
  function ReadLength(b: seq<Byte>): (r: Option<(nat, seq<Byte>)>) {
    if b == [] then None
    else if b[0] < 128 then Some((b[0], b[1..]))
    else
      var k := b[0] - 128;
      if !(1 <= k <= 126) || |b| < 1 + k || b[1] == 0 || Value(b[1..1 + k]) < 128 then None
      else Some((Value(b[1..1 + k]), b[1 + k..]))
  }

  /** The content of the element at the front, and what follows it. */
  function ReadTlv(tag: Byte, b: seq<Byte>): (r: Option<(seq<Byte>, seq<Byte>)>) {
    if b == [] || b[0] != tag then None
    else match ReadLength(b[1..])
      case None => None
      case Some((n, rest)) => if |rest| < n then None else Some((rest[..n], rest[n..]))
  }

  /** A non-negative INTEGER in its shortest form. */
  function ReadInt(c: seq<Byte>): (r: Option<nat>) {
    if c == [] || c[0] >= 128 || (|c| > 1 && c[0] == 0 && c[1] < 128) then None else Some(Value(c))
  }

  /** What `d2i_ECDSA_SIG` makes of the bytes; bytes behind the signature are left alone. */
  function ReadSignature(der: seq<Byte>): (sig: Option<(nat, nat)>) {
    match ReadTlv(SEQUENCE, der)
    case None => None
    case Some((c, _)) =>
      match ReadTlv(INTEGER, c)
      case None => None
      case Some((rc, c')) =>
        match ReadTlv(INTEGER, c')
        case None => None
        case Some((sc, end)) =>
          if end != [] || ReadInt(rc).None? || ReadInt(sc).None? then None
          else Some((ReadInt(rc).value, ReadInt(sc).value))
  }

  // ---------------------------------------------------------------- round trips

  lemma ReadLengthOf(n: nat, rest: seq<Byte>)
    requires LengthFits(n)
    ensures ReadLength(Length(n) + rest) == Some((n, rest))
  {
    var b := Length(n) + rest;
    if n < 128 {
      assert b[1..] == rest;
    } else {
      ValueOfOctets(n);
      assert b[1..1 + |Octets(n)|] == Octets(n);
      assert b[1 + |Octets(n)|..] == rest;
    }
  }

  lemma LengthOfRead(b: seq<Byte>)
    requires ReadLength(b).Some?
    ensures var (n, rest) := ReadLength(b).value; LengthFits(n) && b == Length(n) + rest
  {
    if b[0] >= 128 {
      OctetsOfValue(b[1..b[0] - 127]);
    }
  }

  lemma ReadTlvOf(tag: Byte, content: seq<Byte>, rest: seq<Byte>)
    requires LengthFits(|content|)
    ensures ReadTlv(tag, Tlv(tag, content) + rest) == Some((content, rest))
  {
    hide Length, ReadLength;
    var b := Tlv(tag, content) + rest;
    assert b[1..] == Length(|content|) + (content + rest);
    ReadLengthOf(|content|, content + rest);
  }

  lemma TlvOfRead(tag: Byte, b: seq<Byte>)
    requires ReadTlv(tag, b).Some?
    ensures var (content, rest) := ReadTlv(tag, b).value; LengthFits(|content|) && b == Tlv(tag, content) + rest
  {
    hide Length, ReadLength;
    LengthOfRead(b[1..]);
    var (n, rest) := ReadLength(b[1..]).value;
    assert rest == rest[..n] + rest[n..];
    assert b == [tag] + b[1..];
  }

  lemma ReadIntOf(n: nat)
    ensures ReadInt(IntContent(n)) == Some(n)
  {
    ValueOfOctets(n);
    assert Zeros(1) + Octets(n) == [0] + Octets(n);
    ValueOfZeros(1, Octets(n));
  }

  lemma IntOfRead(c: seq<Byte>)
    requires ReadInt(c).Some?
    ensures IntContent(ReadInt(c).value) == c
  {
    if c[0] != 0 {
      OctetsOfValue(c);
    } else {
      assert c == Zeros(1) + c[1..];
      ValueOfZeros(1, c[1..]);
      OctetsOfValue(c[1..]);
    }
  }

  /** Reading a signature back ... */
  lemma ReadSignatureOf(r: nat, s: nat, rest: seq<Byte>)
    requires Encodable(r, s)
    ensures ReadSignature(Signature(r, s) + rest) == Some((r, s))
  {
    hide Tlv, ReadTlv, ReadInt, IntContent;
    var rc, sc := IntContent(r), IntContent(s);
    ReadTlvOf(SEQUENCE, Tlv(INTEGER, rc) + Tlv(INTEGER, sc), rest);
    ReadTlvOf(INTEGER, rc, Tlv(INTEGER, sc));
    ReadTlvOf(INTEGER, sc, []);
    assert Tlv(INTEGER, sc) + [] == Tlv(INTEGER, sc);
    ReadIntOf(r);
    ReadIntOf(s);
  }

  /** ... and back again: the encoding is the only one that is read. */
  lemma SignatureOfRead(der: seq<Byte>)
    requires ReadSignature(der).Some?
    ensures var (r, s) := ReadSignature(der).value; Encodable(r, s) && Signature(r, s) <= der
  {
    hide Tlv, ReadTlv, ReadInt, IntContent;
    TlvOfRead(SEQUENCE, der);
    var (c, rest) := ReadTlv(SEQUENCE, der).value;
    TlvOfRead(INTEGER, c);
    var (rc, c') := ReadTlv(INTEGER, c).value;
    TlvOfRead(INTEGER, c');
    var (sc, end) := ReadTlv(INTEGER, c').value;
    assert Tlv(INTEGER, sc) + end == Tlv(INTEGER, sc);
    IntOfRead(rc);
    IntOfRead(sc);
  }

  // ------------------------------------------------------------------ the octets

  /** The first octet weighs most. */
  lemma {:induction false} BigEndian(b: Byte, bs: seq<Byte>)
    ensures Value([b] + bs) == b * Pow256(|bs|) + Value(bs)
    decreases |bs|
  {
    if bs == [] {
      assert Value([b][..0]) == 0;
    } else {
      var front := bs[..|bs| - 1];
      assert ([b] + bs)[..|bs|] == [b] + front;
      BigEndian(b, front);
      assert b * Pow256(|front|) * 256 == b * Pow256(|bs|);
    }
  }

  /** A definite length in its shortest form. */
  predicate LengthOctets(l: seq<Byte>, n: nat) {
    if n < 128 then l == [n]
    else 2 <= |l| <= 127 && l[0] == 127 + |l| && l[1] != 0 && Value(l[1..]) == n
  }

  /** A non-negative number in the shortest two's complement form. */
  predicate IntegerOctets(c: seq<Byte>, n: nat) {
    c != [] && c[0] < 128 && (|c| > 1 && c[0] == 0 ==> c[1] >= 128) && Value(c) == n
  }

  /** 0x30 and a length, then 0x02, a length and r, then 0x02, a length and s. */
  ghost predicate SignatureOctets(der: seq<Byte>, r: nat, s: nat) {
    exists l, lr, cr, ls, cs :: Laid(der, l, lr, cr, ls, cs) && IntegerOctets(cr, r) && IntegerOctets(cs, s)
  }

  predicate Laid(der: seq<Byte>, l: seq<Byte>, lr: seq<Byte>, cr: seq<Byte>, ls: seq<Byte>, cs: seq<Byte>) {
    var both := [0x02] + lr + cr + ([0x02] + ls + cs);
    LengthOctets(lr, |cr|) && LengthOctets(ls, |cs|) && LengthOctets(l, |both|) && der == [0x30] + l + both
  }

  lemma LengthIff(l: seq<Byte>, n: nat)
    ensures LengthOctets(l, n) <==> LengthFits(n) && l == Length(n)
  {
    if n >= 128 {
      if LengthOctets(l, n) {
        OctetsOfValue(l[1..]);
        assert l == [l[0]] + l[1..];
      }
      if LengthFits(n) && l == Length(n) {
        ValueOfOctets(n);
        assert l[1..] == Octets(n);
        assert n > 0;
      }
    }
  }

  lemma IntegerIff(c: seq<Byte>, n: nat)
    ensures IntegerOctets(c, n) <==> c == IntContent(n)
  {
    hide IntContent, Value;
    ReadIntOf(n);
    if IntegerOctets(c, n) {
      IntOfRead(c);
    }
  }

  /** A signature is those octets, and those octets are a signature. */
  lemma SignatureIff(der: seq<Byte>, r: nat, s: nat)
    ensures SignatureOctets(der, r, s) <==> Encodable(r, s) && der == Signature(r, s)
  {
    hide Laid, IntegerOctets, IntContent, Encodable, Signature;
    var cr, cs := IntContent(r), IntContent(s);
    IntegerIff(cr, r);
    IntegerIff(cs, s);
    if Encodable(r, s) && der == Signature(r, s) {
      var l, lr, ls := LaidOut(r, s);
      assert Laid(der, l, lr, cr, ls, cs);
    }
    forall l, lr, a, ls, b | Laid(der, l, lr, a, ls, b) && IntegerOctets(a, r) && IntegerOctets(b, s)
      ensures Encodable(r, s) && der == Signature(r, s)
    {
      IntegerIff(a, r);
      IntegerIff(b, s);
      LaidIsSignature(der, l, lr, ls, r, s);
    }
  }

  lemma LaidOut(r: nat, s: nat) returns (l: seq<Byte>, lr: seq<Byte>, ls: seq<Byte>)
    requires Encodable(r, s)
    ensures Laid(Signature(r, s), l, lr, IntContent(r), ls, IntContent(s))
  {
    hide LengthOctets, LengthFits, Length, IntContent;
    var cr, cs := IntContent(r), IntContent(s);
    lr, ls := Length(|cr|), Length(|cs|);
    var both := Tlv(INTEGER, cr) + Tlv(INTEGER, cs);
    l := Length(|both|);
    LengthIff(lr, |cr|);
    LengthIff(ls, |cs|);
    LengthIff(l, |both|);
  }

  lemma LaidIsSignature(der: seq<Byte>, l: seq<Byte>, lr: seq<Byte>, ls: seq<Byte>, r: nat, s: nat)
    requires Laid(der, l, lr, IntContent(r), ls, IntContent(s))
    ensures Encodable(r, s) && der == Signature(r, s)
  {
    hide LengthOctets, LengthFits, Length, IntContent;
    var cr, cs := IntContent(r), IntContent(s);
    LengthIff(lr, |cr|);
    LengthIff(ls, |cs|);
    var both := Tlv(INTEGER, cr) + Tlv(INTEGER, cs);
    LengthIff(l, |both|);
    assert |both| == |Tlv(INTEGER, cr)| + |Tlv(INTEGER, cs)|;
  }

  // ------------------------------------------------------------- the conversions

  /** `fhsm_ecdsa_raw_to_der`; `None` is a return of 0. */
  function RawToDer(raw: seq<Byte>, nlen: nat): (der: Option<seq<Byte>>) {
    if |raw| != 2 * nlen then None
    else
      var r, s := Value(raw[..nlen]), Value(raw[nlen..]);
      if Encodable(r, s) then Some(Signature(r, s)) else None
  }

  /** What `fhsm_ecdsa_der_to_raw` writes; `None` is a return of 0. */
  function DerToRaw(der: seq<Byte>, nlen: nat): (raw: Option<seq<Byte>>) {
    match ReadSignature(der)
    case None => None
    case Some((r, s)) =>
      if |Octets(r)| > nlen || |Octets(s)| > nlen then None else Some(Padded(r, nlen) + Padded(s, nlen))
  }

  function NumBytes(n: nat): (k: nat)
    ensures k == |Octets(n)|
  {
    if n == 0 then 0 else NumBytes(n / 256) + 1
  }

  /** Writes a number into the octets that end before `end`. */
  method PutNumber(n: nat, out: array<Byte>, end: nat)
    requires |Octets(n)| <= end <= out.Length
    modifies out
    ensures out[..] == Spliced(old(out[..]), end, Octets(n))
  {
    hide Octets;
    var m, at := n, end;
    ghost var d := Octets(n);
    ghost var base := end - |d|;
    assert d[..end - base] == d;
    while m > 0
      invariant base <= at <= end && Octets(m) == d[..at - base]
      invariant forall k :: 0 <= k < at ==> out[k] == old(out[k])
      invariant forall k :: at <= k < end ==> out[k] == d[k - base]
      invariant forall k :: end <= k < out.Length ==> out[k] == old(out[k])
      decreases m
    {
      OctetsStep(m, d, at - base);
      at := at - 1;
      out[at] := m % 256;
      m := m / 256;
    }
    assert out[..] == old(out[..base]) + d + old(out[end..]);
  }

  lemma OctetsStep(m: nat, d: seq<Byte>, k: nat)
    requires m > 0 && k <= |d| && Octets(m) == d[..k]
    ensures k > 0 && d[k - 1] == m % 256 && Octets(m / 256) == d[..k - 1]
  {
    assert d[..k][..k - 1] == d[..k - 1];
    assert d[..k][k - 1] == d[k - 1];
  }

  /** Decoding in place: on success the first `2 * nlen` octets are r and s, each
      right-aligned; numbers too wide leave them zero; anything else touches nothing. */
  method WriteRaw(der: seq<Byte>, nlen: nat, out: array<Byte>) returns (n: nat)
    modifies out
    ensures n == if out.Length >= 2 * nlen && DerToRaw(der, nlen).Some? then 2 * nlen else 0
    ensures out.Length < 2 * nlen || ReadSignature(der).None? ==> out[..] == old(out[..])
    ensures out.Length >= 2 * nlen && ReadSignature(der).Some? ==>
              var raw := DerToRaw(der, nlen);
              out[..] == (if raw.Some? then raw.value else Zeros(2 * nlen)) + old(out[2 * nlen..])
  {
    hide ReadSignature, Octets, Padded;
    if out.Length < 2 * nlen {
      return 0;
    }
    var sig := ReadSignature(der);
    if sig.None? {
      return 0;
    }
    var (r, s) := sig.value;
    Clear(out, 2 * nlen);
    if NumBytes(r) > nlen || NumBytes(s) > nlen {
      return 0;
    }
    PutBoth(r, s, nlen, out);
    n := 2 * nlen;
  }

  /** A buffer with the octets `d` put before position `end`. */
  function Spliced(o: seq<Byte>, end: nat, d: seq<Byte>): (r: seq<Byte>)
    requires |d| <= end <= |o|
    ensures |r| == |o|
  {
    o[..end - |d|] + d + o[end..]
  }

  /** Two numbers put into a field of zeros each pad their half. */
  lemma TwoSplices(o: seq<Byte>, nlen: nat, r: nat, s: nat)
    requires 2 * nlen <= |o| && o[..2 * nlen] == Zeros(2 * nlen) && |Octets(r)| <= nlen && |Octets(s)| <= nlen
    ensures Spliced(Spliced(o, nlen, Octets(r)), 2 * nlen, Octets(s)) ==
            Padded(r, nlen) + Padded(s, nlen) + o[2 * nlen..]
  {
    hide Octets;
    var a, b := Octets(r), Octets(s);
    var o1 := Spliced(o, nlen, a);
    assert forall i :: 0 <= i < 2 * nlen ==> o[i] == o[..2 * nlen][i] == 0;
    assert o1[..nlen] == Padded(r, nlen);
    assert o1[nlen..] == o[nlen..];
    SecondSplice(o1, nlen, s);
  }

  lemma SecondSplice(o: seq<Byte>, nlen: nat, s: nat)
    requires 2 * nlen <= |o| && |Octets(s)| <= nlen && forall i :: nlen <= i < 2 * nlen ==> o[i] == 0
    ensures Spliced(o, 2 * nlen, Octets(s)) == o[..nlen] + Padded(s, nlen) + o[2 * nlen..]
  {
    hide Octets;
    assert o[..2 * nlen - |Octets(s)|] == o[..nlen] + Zeros(nlen - |Octets(s)|);
  }

  method PutBoth(r: nat, s: nat, nlen: nat, out: array<Byte>)
    requires 2 * nlen <= out.Length && out[..2 * nlen] == Zeros(2 * nlen) && |Octets(r)| <= nlen && |Octets(s)| <= nlen
    modifies out
    ensures out[..] == Padded(r, nlen) + Padded(s, nlen) + old(out[2 * nlen..])
  {
    hide Octets, Padded, Zeros, Spliced;
    ghost var o := out[..];
    assert o[..2 * nlen] == out[..2 * nlen] && o[2 * nlen..] == out[2 * nlen..];
    TwoSplices(o, nlen, r, s);
    PutNumber(r, out, nlen);
    PutNumber(s, out, 2 * nlen);
  }

  method Clear(out: array<Byte>, n: nat)
    requires n <= out.Length
    modifies out
    ensures out[..] == Zeros(n) + old(out[n..])
  {
    for i := 0 to n
      invariant forall k :: 0 <= k < i ==> out[k] == 0
      invariant forall k :: n <= k < out.Length ==> out[k] == old(out[k])
    {
      out[i] := 0;
    }
  }

  // --------------------------------------------------------------------- results

  function Pow256(k: nat): (n: nat)
    ensures n >= 1
  {
    if k == 0 then 1 else 256 * Pow256(k - 1)
  }

  lemma {:induction false} OctetsWithin(n: nat, k: nat)
    requires n < Pow256(k)
    ensures |Octets(n)| <= k
    decreases k
  {
    if n > 0 {
      OctetsWithin(n / 256, k - 1);
    }
  }

  lemma NineOctets(n: nat)
    requires n < 4 * U64
    ensures |Octets(n)| <= 9 && LengthFits(n)
  {
    assert Pow256(3) == 0x100_0000;
    assert Pow256(6) == 0x1_0000_0000_0000;
    assert Pow256(9) == 256 * U64;
    OctetsWithin(n, 9);
  }

  /** Every width a `size_t` can hold leaves lengths that DER can express. */
  lemma WidthsEncode(r: nat, s: nat, nlen: nat)
    requires nlen < U64 && |Octets(r)| <= nlen && |Octets(s)| <= nlen
    ensures Encodable(r, s)
  {
    hide Octets;
    NineOctets(|IntContent(r)|);
    NineOctets(|IntContent(s)|);
    NineOctets(|Tlv(INTEGER, IntContent(r))| + |Tlv(INTEGER, IntContent(s))|);
  }

  /** The round trip, for every width and every pair of numbers: DER and back is
      the identity, leading zeros and sign octets included. */
  lemma RawRoundTrip(raw: seq<Byte>, nlen: nat)
    requires nlen < U64 && |raw| == 2 * nlen
    ensures RawToDer(raw, nlen).Some? && DerToRaw(RawToDer(raw, nlen).value, nlen) == Some(raw)
  {
    hide Octets, Value, Signature, ReadSignature, Encodable, Padded;
    var r, s := Value(raw[..nlen]), Value(raw[nlen..]);
    PaddedOfValue(raw[..nlen]);
    PaddedOfValue(raw[nlen..]);
    WidthsEncode(r, s, nlen);
    ReadSignatureOf(r, s, []);
    assert Signature(r, s) + [] == Signature(r, s);
    assert raw == raw[..nlen] + raw[nlen..];
  }

  /** The other way: what decodes is encoded to the very bytes it was read from. */
  lemma DerRoundTrip(der: seq<Byte>, nlen: nat)
    requires nlen < U64 && DerToRaw(der, nlen).Some?
    ensures var back := RawToDer(DerToRaw(der, nlen).value, nlen); back.Some? && back.value <= der
  {
    hide Octets, Value, Signature, ReadSignature, Encodable;
    SignatureOfRead(der);
    var (r, s) := ReadSignature(der).value;
    var raw := Padded(r, nlen) + Padded(s, nlen);
    assert raw[..nlen] == Padded(r, nlen) && raw[nlen..] == Padded(s, nlen);
    ValueOfZeros(nlen - |Octets(r)|, Octets(r));
    ValueOfZeros(nlen - |Octets(s)|, Octets(s));
    ValueOfOctets(r);
    ValueOfOctets(s);
  }

  /** The first half is r and the second is s, both ways. */
  lemma HalvesInOrder(raw: seq<Byte>, nlen: nat, der: seq<Byte>)
    requires nlen < U64
    ensures RawToDer(raw, nlen) == Some(der) <==>
            |raw| == 2 * nlen && SignatureOctets(der, Value(raw[..nlen]), Value(raw[nlen..]))
    ensures |raw| == 2 * nlen && RawToDer(raw, nlen) == Some(der) ==> DerToRaw(der, nlen) == Some(raw)
  {
    hide Octets, Value, Signature, ReadSignature, Encodable, Padded, SignatureOctets;
    if |raw| == 2 * nlen {
      SignatureIff(der, Value(raw[..nlen]), Value(raw[nlen..]));
      RawRoundTrip(raw, nlen);
    }
  }

  /** Decoding a well-formed signature fails exactly when a number is too wide. */
  lemma DecodeFailsIff(r: nat, s: nat, nlen: nat, rest: seq<Byte>)
    requires Encodable(r, s)
    ensures DerToRaw(Signature(r, s) + rest, nlen) == None <==> r >= Pow256(nlen) || s >= Pow256(nlen)
  {
    hide Signature, ReadSignature, Encodable, Octets;
    ReadSignatureOf(r, s, rest);
    WidthIff(r, nlen);
    WidthIff(s, nlen);
  }

  lemma {:induction false} WidthIff(n: nat, k: nat)
    ensures |Octets(n)| <= k <==> n < Pow256(k)
    decreases k
  {
    if n > 0 && k > 0 {
      WidthIff(n / 256, k - 1);
    }
  }
}
