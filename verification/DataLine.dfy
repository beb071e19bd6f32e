/** The text form of one flow: printing on the client, parsing on the server. */
module DataLine {
  import opened Common
  import opened Decimals

  const MAX_IFACE_LABEL_LEN: nat := 64
  const MAX_IP_LABEL_LEN: nat := 50
  const PRINTED_IFACE_LEN: nat := 64
  const PRINTED_IP_LEN: nat := 46

  datatype PacketMeta = PacketMeta(iface: string, srcIp: string, dstIp: string, bytes: nat)

  // ----- strtoull ---------------------------------------------------------------------

  predicate IsSpace(c: char) {
    c == ' ' || '\t' <= c <= '\r'
  }

  function SkipSpaces(s: string): string {
    if s != "" && IsSpace(s[0]) then SkipSpaces(s[1..]) else s
  }

  function LeadingDigits(s: string): (d: string)
    ensures AllDigits(d) && d <= s
  {
    if s != "" && IsDigit(s[0]) then [s[0]] + LeadingDigits(s[1..]) else ""
  }

  /** The C library's strtoull in base 10: leading white space, an optional sign
      (a minus negates modulo 2^64), digits; too large a number gives the maximum. */
  function StrToUll(s: string): Option<nat> {
    var t := SkipSpaces(s);
    var signed := t != "" && (t[0] == '+' || t[0] == '-');
    var d := LeadingDigits(if signed then t[1..] else t);
    if d == "" then None
    else if Value(d) >= U64 then Some(U64 - 1)
    else if signed && t[0] == '-' then Some((U64 - Value(d)) % U64)
    else Some(Value(d))
  }

  lemma {:induction false} LeadingAll(s: string)
    requires AllDigits(s)
    ensures LeadingDigits(s) == s
  {
    if s == "" {
    } else {
      LeadingAll(s[1..]);
    }
  }

  lemma StrToUllDecimal(n: nat)
    requires n < U64
    ensures StrToUll(Decimal(n)) == Some(n)
  {
    var s := Decimal(n);
    assert IsDigit(s[0]);
    LeadingAll(s);
    ValueOfDecimal(n);
  }

  lemma {:induction false} SpacesSkipped(ws: string, t: string)
    requires forall i | 0 <= i < |ws| :: ws[i] in " \t\n\U{0b}\U{0c}\r"
    requires t != "" ==> t[0] !in " \t\n\U{0b}\U{0c}\r"
    ensures SkipSpaces(ws + t) == t
  {
    if ws == "" {
      assert ws + t == t;
    } else {
      assert (ws + t)[1..] == ws[1..] + t;
      SpacesSkipped(ws[1..], t);
    }
  }

  lemma {:induction false} DigitsLead(d: string, rest: string)
    requires AllDigits(d) && (rest != "" ==> !IsDigit(rest[0]))
    ensures LeadingDigits(d + rest) == d
  {
    if d == "" {
      assert d + rest == rest;
    } else {
      assert (d + rest)[1..] == d[1..] + rest;
      DigitsLead(d[1..], rest);
      assert d == [d[0]] + d[1..];
    }
  }

  /** White space, a sign, digits and anything else: the number the digits denote, or the largest
      of 64 bits; behind a minus, what is to be added to it for 2^64. */
  lemma StrToUllReads(ws: string, sign: string, d: string, rest: string)
    requires forall i | 0 <= i < |ws| :: ws[i] in " \t\n\U{0b}\U{0c}\r"
    requires sign == "" || sign == "+" || sign == "-"
    requires AllDigits(d) && (rest != "" ==> !IsDigit(rest[0]))
    ensures d != "" ==>
              StrToUll(ws + (sign + (d + rest)))
              == Some(if Value(d) >= 0x1_0000_0000_0000_0000 then 0xFFFF_FFFF_FFFF_FFFF
                      else if sign == "-" && Value(d) > 0 then 0x1_0000_0000_0000_0000 - Value(d) else Value(d))
    ensures d == "" && sign != "" ==> StrToUll(ws + (sign + (d + rest))) == None
  {
    hide Value, StrToUll;
    if d != "" || sign != "" {
      var t := sign + (d + rest);
      assert sign == "" ==> t == d + rest;
      assert sign != "" ==> t[1..] == d + rest;
      SpacesSkipped(ws, t);
      DigitsLead(d, rest);
      SignedDigits(ws + t, t, sign, d);
    }
  }

  lemma SignedDigits(s: string, t: string, sign: string, d: string)
    requires SkipSpaces(s) == t && t != "" && AllDigits(d) && (sign != "" || d != "")
    requires if sign == "" then LeadingDigits(t) == d
             else (sign == "+" || sign == "-") && t[0] == sign[0] && LeadingDigits(t[1..]) == d
    ensures StrToUll(s)
         == if d == "" then None
            else Some(if Value(d) >= 0x1_0000_0000_0000_0000 then 0xFFFF_FFFF_FFFF_FFFF
                      else if sign == "-" && Value(d) > 0 then 0x1_0000_0000_0000_0000 - Value(d) else Value(d))
  {
    hide Value, SkipSpaces;
    assert sign == "" ==> IsDigit(t[0]);
    hide LeadingDigits;
  }

  // ----- tokens --------------------------------------------------------------------------

  predicate IsSep(c: char) {
    c == ' ' || c == '\t' || c == '\r' || c == '\n'
  }

  predicate SepFree(s: string) {
    forall i | 0 <= i < |s| :: s[i] != ' ' && s[i] != '\t' && s[i] != '\r' && s[i] != '\n'
  }

  function TokStart(s: string, p: nat): (b: nat)
    requires p <= |s|
    ensures p <= b <= |s| && (b < |s| ==> !IsSep(s[b]))
    decreases |s| - p
  {
    if p < |s| && IsSep(s[p]) then TokStart(s, p + 1) else p
  }

  function TokEnd(s: string, p: nat): (e: nat)
    requires p <= |s|
    ensures p <= e <= |s| && SepFree(s[p..e]) && (p < |s| && !IsSep(s[p]) ==> p < e)
    decreases |s| - p
  {
    if p < |s| && !IsSep(s[p]) then
      var e := TokEnd(s, p + 1);
      assert s[p..e] == [s[p]] + s[p + 1..e];
      e
    else p
  }

  /** The next token at or after p, as its begin and end. */
  function NextTok(s: string, p: nat): (r: Option<(nat, nat)>)
    requires p <= |s|
    ensures r.Some? ==> p <= r.value.0 < r.value.1 <= |s| && SepFree(s[r.value.0..r.value.1])
  {
    var b := TokStart(s, p);
    if b >= |s| then None else Some((b, TokEnd(s, b)))
  }

  /** The server's reading of a D-line body. */
  function ParseLine(line: string, maxIface: nat, maxIp: nat): Option<PacketMeta> {
    var i := NextTok(line, 0);
    if i.None? then None else
    var s := NextTok(line, i.value.1);
    if s.None? then None else
    var d := NextTok(line, s.value.1);
    if d.None? then None else
    var b := NextTok(line, d.value.1);
    if b.None? then None else
    var iface, src, dst := line[i.value.0..i.value.1], line[s.value.0..s.value.1], line[d.value.0..d.value.1];
    var v := StrToUll(line[b.value.0..]);
    if |iface| > Limit(maxIface, 64) || |src| > Limit(maxIp, 50)
       || |dst| > Limit(maxIp, 50) || v.None? || v.value >= U32
    then None
    else Some(PacketMeta(iface, src, dst, v.value))
  }

  function Limit(given: nat, fallback: nat): nat {
    if given == 0 then fallback else given
  }

  method FindToken(line: string, start: nat) returns (found: bool, b: nat, e: nat)
    requires start <= |line|
    ensures e <= |line| && (if found then NextTok(line, start) == Some((b, e)) else NextTok(line, start).None?)
  {
    var p := start;
    while p < |line| && IsSep(line[p])
      invariant start <= p <= |line| && TokStart(line, start) == TokStart(line, p)
    {
      p := p + 1;
    }
    if p >= |line| {
      return false, 0, 0;
    }
    b := p;
    while p < |line| && !IsSep(line[p])
      invariant b <= p <= |line| && TokEnd(line, b) == TokEnd(line, p)
    {
      p := p + 1;
    }
    found, e := true, p;
  }

  method ParseDataLine(line: string, maxIfaceLen: nat, maxIpLen: nat) returns (ok: bool, out: PacketMeta)
    ensures ok <==> ParseLine(line, maxIfaceLen, maxIpLen).Some?
    ensures ok ==> ParseLine(line, maxIfaceLen, maxIpLen) == Some(out)
  {
    out := PacketMeta("", "", "", 0);
    ok := false;
    if line == "" {
      return;
    }
    var f, ib, ie := FindToken(line, 0);
    if !f { return; }
    var sb, se, db, de, bb, be;
    f, sb, se := FindToken(line, ie);
    if !f { return; }
    f, db, de := FindToken(line, se);
    if !f { return; }
    f, bb, be := FindToken(line, de);
    if !f { return; }
    var maxIface, maxIp := Limit(maxIfaceLen, MAX_IFACE_LABEL_LEN), Limit(maxIpLen, MAX_IP_LABEL_LEN);
    if ie - ib > maxIface || se - sb > maxIp || de - db > maxIp {
      return;
    }
    var val := StrToUll(line[bb..]);
    if val.None? || val.value > U32 - 1 {
      return;
    }
    ok, out := true, PacketMeta(line[ib..ie], line[sb..se], line[db..de], val.value);
  }

  // ----- printing ----------------------------------------------------------------------------

  /** A C string ends at its first NUL. */
  function CStr(s: string): string {
    if s == "" || s[0] == '\0' then "" else [s[0]] + CStr(s[1..])
  }

  function Clip(s: string, n: nat): string {
    if |s| <= n then s else s[..n]
  }

  /** What follows "D " on the line printed for a flow. */
  function Body(f: PacketMeta): string {
    Clip(CStr(f.iface), PRINTED_IFACE_LEN) + " " + Clip(CStr(f.srcIp), PRINTED_IP_LEN) + " "
    + Clip(CStr(f.dstIp), PRINTED_IP_LEN) + " " + Decimal(f.bytes)
  }

  function PrintLine(f: PacketMeta): string {
    "D " + Body(f) + "\n"
  }

  /** A printed line always fits the client's 256-byte buffer. */
  lemma PrintedFits(f: PacketMeta)
    requires f.bytes < U64
    ensures |PrintLine(f)| <= 182
  {
    assert Pow10(10) == 10_000_000_000 by { assert Pow10(5) == 100_000; }
    assert Pow10(20) >= U64 by { assert Pow10(15) == 1_000_000_000_000_000; }
    DecimalLength(f.bytes, 20);
  }

  // ----- the two together ------------------------------------------------------------------------

  predicate Label(s: string, n: nat) {
    0 < |s| <= n && SepFree(s) && '\0' !in s
  }

  /** The flows that survive the trip: non-empty labels without separators or NUL,
      within both ends' limits, and at most 2^32 - 1 bytes. */
  predicate Deliverable(f: PacketMeta, maxIface: nat, maxIp: nat) {
    var (iface, ip) := (if maxIface == 0 then 64 else maxIface, if maxIp == 0 then 50 else maxIp);
    && Label(f.iface, Min(64, iface)) && Label(f.srcIp, Min(46, ip)) && Label(f.dstIp, Min(46, ip))
    && f.bytes < U32
  }

  lemma {:induction false} TokenHere(s: string, p: nat, a: string)
    requires p + |a| <= |s| && s[p..p + |a|] == a && SepFree(a)
    requires p + |a| < |s| ==> IsSep(s[p + |a|])
    ensures TokEnd(s, p) == p + |a|
    decreases |a|
  {
    if a == "" {
    } else {
      assert s[p] == a[0] && s[p + 1..p + 1 + |a[1..]|] == a[1..];
      TokenHere(s, p + 1, a[1..]);
    }
  }

  lemma TokenAfterSpace(s: string, p: nat, a: string)
    requires p + 1 + |a| <= |s| && s[p] == ' ' && s[p + 1..p + 1 + |a|] == a && a != "" && SepFree(a)
    requires p + 1 + |a| < |s| ==> IsSep(s[p + 1 + |a|])
    ensures NextTok(s, p) == Some((p + 1, p + 1 + |a|))
  {
    assert s[p + 1] == a[0] && !IsSep(a[0]);
    assert TokStart(s, p + 1) == p + 1;
    assert TokStart(s, p) == TokStart(s, p + 1);
    TokenHere(s, p + 1, a);
  }

  function Fields(a: string, b: string, c: string, d: string): string {
    a + " " + b + " " + c + " " + d
  }

  predicate Laid(s: string, a: string, b: string, c: string, d: string, p: nat, q: nat, r: nat) {
    && p == |a| && q == p + 1 + |b| && r == q + 1 + |c| && |s| == r + 1 + |d|
    && s[..p] == a && s[p + 1..q] == b && s[q + 1..r] == c && s[r + 1..] == d
    && s[p] == ' ' && s[q] == ' ' && s[r] == ' '
  }

  lemma FieldsLaid(a: string, b: string, c: string, d: string)
    ensures Laid(Fields(a, b, c, d), a, b, c, d, |a|, |a| + 1 + |b|, |a| + 1 + |b| + 1 + |c|)
  {
  }

  /** The four tokens of four separated fields. */
  lemma FieldTokens(s: string, a: string, b: string, c: string, d: string, p: nat, q: nat, r: nat)
    requires a != "" && b != "" && c != "" && d != "" && SepFree(a) && SepFree(b) && SepFree(c) && SepFree(d)
    requires Laid(s, a, b, c, d, p, q, r)
    ensures NextTok(s, 0) == Some((0, p)) && NextTok(s, p) == Some((p + 1, q))
    ensures NextTok(s, q) == Some((q + 1, r)) && NextTok(s, r) == Some((r + 1, |s|))
  {
    hide TokStart, TokEnd;
    assert NextTok(s, 0) == Some((0, p)) by {
      FirstToken(s, a);
    }
    TokenAfterSpace(s, p, b);
    TokenAfterSpace(s, q, c);
    assert s[r + 1..r + 1 + |d|] == d;
    TokenAfterSpace(s, r, d);
  }

  lemma FirstToken(s: string, a: string)
    requires a != "" && SepFree(a) && a <= s && (|a| < |s| ==> IsSep(s[|a|]))
    ensures NextTok(s, 0) == Some((0, |a|))
  {
    assert s[0] == a[0];
    assert s[0..|a|] == a;
    TokenHere(s, 0, a);
  }

  /** Parsing four separated fields. */
  lemma ParseFields(a: string, b: string, c: string, n: nat, maxIface: nat, maxIp: nat)
    requires a != "" && b != "" && c != "" && SepFree(a) && SepFree(b) && SepFree(c) && n < U64
    ensures ParseLine(Fields(a, b, c, Decimal(n)), maxIface, maxIp)
         == if |a| <= Limit(maxIface, MAX_IFACE_LABEL_LEN) && |b| <= Limit(maxIp, MAX_IP_LABEL_LEN)
               && |c| <= Limit(maxIp, MAX_IP_LABEL_LEN) && n < U32
            then Some(PacketMeta(a, b, c, n)) else None
  {
    hide NextTok, Fields, StrToUll, Decimal;
    DigitsAreNoSeps(n);
    var p, q, r := |a|, |a| + 1 + |b|, |a| + 1 + |b| + 1 + |c|;
    var s := Fields(a, b, c, Decimal(n));
    FieldsLaid(a, b, c, Decimal(n));
    FieldTokens(s, a, b, c, Decimal(n), p, q, r);
    assert s[0..p] == a;
    StrToUllDecimal(n);
  }

  lemma DigitsAreNoSeps(n: nat)
    ensures Decimal(n) != "" && SepFree(Decimal(n))
  {
  }

  lemma {:induction false} CStrWhole(s: string)
    ensures '\0' !in CStr(s) && CStr(s) <= s
    ensures '\0' !in s ==> CStr(s) == s
  {
    if s == "" || s[0] == '\0' {
    } else {
      CStrWhole(s[1..]);
      assert s == [s[0]] + s[1..];
    }
  }

  lemma BodyHasNoNul(f: PacketMeta)
    ensures '\0' !in Body(f)
  {
    CStrWhole(f.iface);
    CStrWhole(f.srcIp);
    CStrWhole(f.dstIp);
  }

  /** What the parser returns are non-empty separator-free pieces of the line. */
  lemma ParsedLabels(line: string, maxIface: nat, maxIp: nat)
    requires ParseLine(line, maxIface, maxIp).Some? && '\0' !in line
    ensures var m := ParseLine(line, maxIface, maxIp).value;
            && Label(m.iface, Limit(maxIface, MAX_IFACE_LABEL_LEN)) && Label(m.srcIp, Limit(maxIp, MAX_IP_LABEL_LEN))
            && Label(m.dstIp, Limit(maxIp, MAX_IP_LABEL_LEN)) && m.bytes < U32
  {
  }

  lemma Clipped(s: string, n: nat)
    requires s != "" && SepFree(s) && n > 0
    ensures Clip(s, n) != "" && SepFree(Clip(s, n)) && |Clip(s, n)| <= n && (|s| <= n <==> Clip(s, n) == s)
  {
  }

  /** Labels without separators or NUL, however long, are clipped and read back. */
  lemma ParseBody(f: PacketMeta, maxIface: nat, maxIp: nat)
    requires Label(f.iface, |f.iface|) && Label(f.srcIp, |f.srcIp|) && Label(f.dstIp, |f.dstIp|) && f.bytes < U64
    ensures var (a, b, c) := (Clip(f.iface, PRINTED_IFACE_LEN), Clip(f.srcIp, PRINTED_IP_LEN),
                              Clip(f.dstIp, PRINTED_IP_LEN));
            ParseLine(Body(f), maxIface, maxIp)
            == if |a| <= Limit(maxIface, 64) && |b| <= Limit(maxIp, 50) && |c| <= Limit(maxIp, 50) && f.bytes < U32
               then Some(PacketMeta(a, b, c, f.bytes)) else None
  {
    CStrWhole(f.iface);
    CStrWhole(f.srcIp);
    CStrWhole(f.dstIp);
    Clipped(f.iface, PRINTED_IFACE_LEN);
    Clipped(f.srcIp, PRINTED_IP_LEN);
    Clipped(f.dstIp, PRINTED_IP_LEN);
    hide SepFree, CStr, Clip, ParseLine;
    ParseFields(Clip(f.iface, PRINTED_IFACE_LEN), Clip(f.srcIp, PRINTED_IP_LEN), Clip(f.dstIp, PRINTED_IP_LEN),
                f.bytes, maxIface, maxIp);
  }

  /** Exactly the deliverable flows come back unchanged. */
  lemma PrintParse(f: PacketMeta, maxIface: nat, maxIp: nat)
    requires f.bytes < U64
    ensures ParseLine(Body(f), maxIface, maxIp) == Some(f) <==> Deliverable(f, maxIface, maxIp)
  {
    hide ParseLine, Body, SepFree, Clip;
    BodyHasNoNul(f);
    if ParseLine(Body(f), maxIface, maxIp) == Some(f) {
      ParsedLabels(Body(f), maxIface, maxIp);
    }
    if ParseLine(Body(f), maxIface, maxIp) == Some(f) || Deliverable(f, maxIface, maxIp) {
      ParseBody(f, maxIface, maxIp);
      Clipped(f.iface, PRINTED_IFACE_LEN);
      Clipped(f.srcIp, PRINTED_IP_LEN);
      Clipped(f.dstIp, PRINTED_IP_LEN);
    }
  }

  /** A flow of 2^32 bytes or more never arrives, whatever the limits. */
  lemma LargeFlowLost(f: PacketMeta, maxIface: nat, maxIp: nat)
    requires Label(f.iface, |f.iface|) && Label(f.srcIp, |f.srcIp|) && Label(f.dstIp, |f.dstIp|)
    requires U32 <= f.bytes < U64
    ensures ParseLine(Body(f), maxIface, maxIp) == None
  {
    hide ParseLine, Body, Clip;
    ParseBody(f, maxIface, maxIp);
  }

  /** One byte more or less decides whether this flow arrives. */
  lemma FourGigabytesLost()
    ensures var f := PacketMeta("eth0", "10.0.0.1", "10.0.0.2", U32);
            && ParseLine(Body(f), MAX_IFACE_LABEL_LEN, MAX_IP_LABEL_LEN) == None
            && Deliverable(f.(bytes := U32 - 1), MAX_IFACE_LABEL_LEN, MAX_IP_LABEL_LEN)
  {
    hide ParseLine, Body;
    LargeFlowLost(PacketMeta("eth0", "10.0.0.1", "10.0.0.2", U32), MAX_IFACE_LABEL_LEN, MAX_IP_LABEL_LEN);
  }

  // ----- how long lines are ----------------------------------------------------------------------

  /** The longest line of a deliverable flow, without its newline. */
  function LongestLine(maxIface: nat, maxIp: nat): nat {
    var (iface, ip) := (if maxIface == 0 then 64 else maxIface, if maxIp == 0 then 50 else maxIp);
    15 + Min(64, iface) + 2 * Min(46, ip)
  }

  lemma TenDigits()
    ensures Pow10(9) <= U32 - 1 < Pow10(10)
  {
    assert Pow10(4) == 10_000;
    assert Pow10(8) == 100_000_000;
  }

  lemma LineLength(f: PacketMeta, maxIface: nat, maxIp: nat)
    requires Deliverable(f, maxIface, maxIp)
    ensures |"D " + Body(f)| <= LongestLine(maxIface, maxIp)
  {
    hide CStr, Decimal, Pow10;
    CStrWhole(f.iface);
    CStrWhole(f.srcIp);
    CStrWhole(f.dstIp);
    TenDigits();
    DecimalLength(f.bytes, 10);
  }

  function Xs(n: nat): (s: string)
    ensures |s| == n
  {
    seq(n, i requires 0 <= i < n => 'x')
  }

  /** A flow with labels as long as possible. */
  function LongFlow(maxIface: nat, maxIp: nat): PacketMeta {
    var ip := Xs(Min(PRINTED_IP_LEN, Limit(maxIp, MAX_IP_LABEL_LEN)));
    PacketMeta(Xs(Min(PRINTED_IFACE_LEN, Limit(maxIface, MAX_IFACE_LABEL_LEN))), ip, ip, U32 - 1)
  }

  lemma LongFlowLength(maxIface: nat, maxIp: nat)
    ensures Deliverable(LongFlow(maxIface, maxIp), maxIface, maxIp)
    ensures |"D " + Body(LongFlow(maxIface, maxIp))| == LongestLine(maxIface, maxIp)
  {
    var f := LongFlow(maxIface, maxIp);
    assert Deliverable(f, maxIface, maxIp);
    hide CStr, Decimal, Pow10;
    CStrWhole(f.iface);
    CStrWhole(f.srcIp);
    CStrWhole(f.dstIp);
    TenDigits();
    DecimalLength(f.bytes, 10);
    DecimalReaches(f.bytes, 9);
  }
}
