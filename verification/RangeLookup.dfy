/** Country ranges: sorted once after loading, then searched by binary search. */
module RangeLookup {
  import opened Common
  import opened Bytes

  type Country = string

  /** A is an IPv4 number or the 16 bytes of an IPv6 address. */
  datatype Range<A> = Range(start: A, end: A, asn: nat, country: Country, asDesc: string)

  type V4Range = Range<nat>
  type V6Range = Range<Address6>

  type Address6 = b: seq<Byte> | |b| == 16 witness seq(16, _ => 0)

  // ----- the order of IPv6 addresses -------------------------------------------------------------

  predicate ByteLess(a: Byte, b: Byte) {
    a < b
  }

  /** std::array's operator<. */
  predicate BytesLess(a: seq<Byte>, b: seq<Byte>) {
    LexLess(a, b, ByteLess)
  }

  /** Comparing bytes from the front is comparing the 128-bit numbers. */
  lemma {:induction false} LexIsNumeric(a: seq<Byte>, b: seq<Byte>)
    requires |a| == |b|
    ensures BytesLess(a, b) <==> FromBigEndian(a) < FromBigEndian(b)
    ensures a == b <==> FromBigEndian(a) == FromBigEndian(b)
    decreases |a|
  {
    if a == [] {
    } else {
      var n := |a| - 1;
      LexIsNumeric(a[..n], b[..n]);
      assert a == a[..n] + [a[n]] && b == b[..n] + [b[n]];
      LexConcat(a[..n], b[..n], [a[n]], [b[n]], ByteLess);
      LexOne(a[n], b[n], ByteLess);
    }
  }

  // ----- ranges as intervals of numbers -----------------------------------------------------------

  /** What a range covers, by address number. */
  datatype Span = Span(lo: nat, hi: nat)

  function SpanV4(r: V4Range): Span {
    Span(r.start, r.end)
  }

  function SpanV6(r: V6Range): Span {
    Span(FromBigEndian(r.start), FromBigEndian(r.end))
  }

  predicate Holds(s: Span, n: nat) {
    s.lo <= n <= s.hi
  }

  predicate Apart(a: Span, b: Span) {
    a.hi < b.lo || b.hi < a.lo
  }

  /** No address is in two of the ranges, none is listed twice, and none is empty. */
  ghost predicate Disjoint<R(!new)>(ranges: multiset<R>, span: R -> Span) {
    && (forall r | r in ranges :: ranges[r] == 1 && span(r).lo <= span(r).hi)
    && (forall r, s | r in ranges && s in ranges && r != s :: Apart(span(r), span(s)))
  }

  /** The answer of a lookup among ranges: the one range that holds the address, and
      none exactly when no range does. */
  ghost predicate Answers<R(!new)>(found: Option<R>, ranges: multiset<R>, span: R -> Span, n: nat) {
    match found
    case None => forall r | r in ranges :: !Holds(span(r), n)
    case Some(r) => r in ranges && Holds(span(r), n) && forall s | s in ranges && s != r :: !Holds(span(s), n)
  }

  ghost predicate Ascending<R(!new)>(s: seq<R>, span: R -> Span) {
    forall i, j | 0 <= i < j < |s| :: span(s[i]).lo <= span(s[j]).lo
  }

  /** r is among the ranges that start last at or below n. */
  ghost predicate Latest<R(!new)>(r: R, ranges: multiset<R>, span: R -> Span, n: nat) {
    r in ranges && span(r).lo <= n && forall s | s in ranges && span(s).lo <= n :: span(s).lo <= span(r).lo
  }

  /** What a lookup finds in any ranges, disjoint or not: a latest range if it holds the address. */
  ghost predicate Finds<R(!new)>(found: Option<R>, ranges: multiset<R>, span: R -> Span, n: nat) {
    match found
    case None => (forall r | r in ranges :: n < span(r).lo)
            || (exists r :: Latest(r, ranges, span, n) && span(r).hi < n)
    case Some(r) => Latest(r, ranges, span, n) && n <= span(r).hi
  }

  /** A scan from the end: the last range that starts at or below n, if it holds n. */
  function Scan<R>(s: seq<R>, span: R -> Span, n: nat): Option<R> {
    if s == [] then None
    else if n < span(s[|s| - 1]).lo then Scan(s[..|s| - 1], span, n)
    else if Holds(span(s[|s| - 1]), n) then Some(s[|s| - 1])
    else None
  }

  /** k ranges start at or below n. */
  ghost predicate Started<R>(s: seq<R>, span: R -> Span, n: nat, k: nat) {
    && k <= |s|
    && (forall i | 0 <= i < k :: span(s[i]).lo <= n)
    && (forall i | k <= i < |s| :: n < span(s[i]).lo)
  }

  lemma {:induction false} ScanStopsAt<R>(s: seq<R>, span: R -> Span, n: nat, k: nat)
    requires Started(s, span, n, k)
    ensures Scan(s, span, n) == if k > 0 && Holds(span(s[k - 1]), n) then Some(s[k - 1]) else None
    decreases |s|
  {
    if |s| == k {
    } else {
      ScanStopsAt(s[..|s| - 1], span, n, k);
    }
  }

  lemma {:induction false} CountStarted<R(!new)>(s: seq<R>, span: R -> Span, n: nat) returns (k: nat)
    requires Ascending(s, span)
    ensures Started(s, span, n, k)
    decreases |s|
  {
    if s == [] || span(s[|s| - 1]).lo <= n {
      k := |s|;
    } else {
      k := CountStarted(s[..|s| - 1], span, n);
      assert s == s[..|s| - 1] + [s[|s| - 1]];
    }
  }

  lemma ScanFinds<R(!new)>(s: seq<R>, span: R -> Span, n: nat)
    requires Ascending(s, span)
    ensures Finds(Scan(s, span, n), multiset(s), span, n)
  {
    var k := CountStarted(s, span, n);
    ScanStopsAt(s, span, n, k);
    if k > 0 {
      assert s[k - 1] in multiset(s);
      assert Latest(s[k - 1], multiset(s), span, n);
    }
  }

  // ----- when every held address is found --------------------------------------------------------

  ghost predicate Held<R(!new)>(s: seq<R>, span: R -> Span, n: nat) {
    exists i :: 0 <= i < |s| && Holds(span(s[i]), n)
  }

  /** For this address the scan says None exactly if no range holds it. */
  ghost predicate Agrees<R(!new)>(s: seq<R>, span: R -> Span, n: nat) {
    Scan(s, span, n).None? <==> !Held(s, span, n)
  }

  /** The first number from the range's start on that it does not hold. */
  function Past(s: Span): nat {
    if s.lo <= s.hi then s.hi + 1 else s.lo
  }

  /** Range i reaches past the later range j, and the one after j starts only behind that. */
  ghost predicate Shadows<R(!new)>(s: seq<R>, span: R -> Span, i: nat, j: nat) {
    && i < j < |s| && Past(span(s[j])) <= span(s[i]).hi
    && (j + 1 < |s| ==> Past(span(s[j])) < span(s[j + 1]).lo)
  }

  ghost predicate Unshadowed<R(!new)>(s: seq<R>, span: R -> Span) {
    forall i: nat, j: nat :: !Shadows(s, span, i, j)
  }

  /** The first address past the inner range is then missed. */
  lemma ShadowMissed<R(!new)>(s: seq<R>, span: R -> Span, i: nat, j: nat) returns (n: nat)
    requires Ascending(s, span) && Shadows(s, span, i, j)
    ensures Held(s, span, n) && Scan(s, span, n).None? && !Agrees(s, span, n)
  {
    n := Past(span(s[j]));
    assert Holds(span(s[i]), n);
    forall x | 0 <= x < |s| ensures if x <= j then span(s[x]).lo <= n else n < span(s[x]).lo {
    }
    ScanStopsAt(s, span, n, j + 1);
  }

  lemma UnshadowedFound<R(!new)>(s: seq<R>, span: R -> Span, n: nat)
    requires Ascending(s, span) && Unshadowed(s, span) && Held(s, span, n)
    ensures Scan(s, span, n).Some?
  {
    hide Ascending, Scan;
    var k := CountStarted(s, span, n);
    ScanStopsAt(s, span, n, k);
    var i: nat :| i < |s| && Holds(span(s[i]), n);
    if i < k - 1 {
      assert !Shadows(s, span, i, k - 1);
    }
  }

  lemma ScanIsHeld<R(!new)>(s: seq<R>, span: R -> Span, n: nat)
    requires Ascending(s, span) && Scan(s, span, n).Some?
    ensures Held(s, span, n)
  {
    var k := CountStarted(s, span, n);
    ScanStopsAt(s, span, n, k);
  }

  /** Ranges of any kind, nested, overlapping or empty, answer None exactly for the
      addresses that no range holds, if and only if they are unshadowed. */
  lemma EveryHeldFoundExactlyWhen<R(!new)>(s: seq<R>, span: R -> Span)
    requires Ascending(s, span)
    ensures (forall n: nat :: Agrees(s, span, n)) <==> Unshadowed(s, span)
  {
    hide Scan, Held, Ascending, Shadows;
    if Unshadowed(s, span) {
      forall n: nat ensures Agrees(s, span, n) {
        if Held(s, span, n) {
          UnshadowedFound(s, span, n);
        } else if Scan(s, span, n).Some? {
          ScanIsHeld(s, span, n);
        }
      }
    } else {
      var i: nat, j: nat :| Shadows(s, span, i, j);
      var n := ShadowMissed(s, span, i, j);
    }
  }

  /** The same over the addresses there are: no range holds a number beyond them. */
  lemma EveryHeldFoundUpTo<R(!new)>(s: seq<R>, span: R -> Span, size: nat)
    requires Ascending(s, span) && forall i | 0 <= i < |s| :: span(s[i]).hi < size
    ensures (forall n: nat | n < size :: Agrees(s, span, n)) <==> Unshadowed(s, span)
  {
    hide Scan, Unshadowed;
    EveryHeldFoundExactlyWhen(s, span);
    forall n: nat | n >= size ensures Agrees(s, span, n) {
      if Scan(s, span, n).Some? {
        ScanIsHeld(s, span, n);
      }
    }
  }

  lemma {:induction false} NumberIsAddress(n: nat)
    requires n < Pow256(16)
    ensures |BigEndian(n, 16)| == 16 && FromBigEndian(BigEndian(n, 16)) == n
  {
    BigEndianRoundTrip(n, 16);
  }

  /** Over 128-bit addresses. */
  lemma EveryHeldV6FoundExactlyWhen(s: seq<V6Range>)
    requires Ascending(s, SpanV6)
    ensures (forall ip: Address6 :: Agrees(s, SpanV6, FromBigEndian(ip))) <==> Unshadowed(s, SpanV6)
  {
    hide Agrees, Unshadowed, FromBigEndian, BigEndian, Pow256;
    forall i | 0 <= i < |s| ensures SpanV6(s[i]).hi < Pow256(16) {
      FromBigEndianBound(s[i].end);
    }
    EveryHeldFoundUpTo(s, SpanV6, Pow256(16));
    if Unshadowed(s, SpanV6) {
      forall ip: Address6 ensures Agrees(s, SpanV6, FromBigEndian(ip)) {
        FromBigEndianBound(ip);
      }
    } else {
      var n: nat :| n < Pow256(16) && !Agrees(s, SpanV6, n);
      NumberIsAddress(n);
      var ip: Address6 := BigEndian(n, 16);
      assert !Agrees(s, SpanV6, FromBigEndian(ip));
    }
  }

  lemma OthersApart<R(!new)>(r: R, s: R, ranges: multiset<R>, span: R -> Span)
    requires Disjoint(ranges, span) && r in ranges && s in ranges && r != s
    ensures Apart(span(r), span(s)) && span(s).lo <= span(s).hi && span(r).lo <= span(r).hi
  {
  }

  lemma OnlyLatestHolds<R(!new)>(t: R, s: R, ranges: multiset<R>, span: R -> Span, n: nat)
    requires Disjoint(ranges, span) && Latest(t, ranges, span, n) && s in ranges && s != t
    ensures !Holds(span(s), n)
  {
    OthersApart(s, t, ranges, span);
    hide Disjoint;
  }

  /** Among disjoint ranges that is the one range holding the address, or there is none. */
  lemma DisjointAnswered<R(!new)>(found: Option<R>, ranges: multiset<R>, span: R -> Span, n: nat)
    requires Disjoint(ranges, span) && Finds(found, ranges, span, n)
    ensures Answers(found, ranges, span, n)
  {
    hide Disjoint;
    forall t, s | Latest(t, ranges, span, n) && s in ranges && s != t ensures !Holds(span(s), n) {
      OnlyLatestHolds(t, s, ranges, span, n);
    }
    hide Latest;
    if found.Some? {
      assert Latest(found.value, ranges, span, n);
      LatestIsOne(found.value, ranges, span, n);
    } else if t :| Latest(t, ranges, span, n) && span(t).hi < n {
    }
  }

  lemma LatestIsOne<R(!new)>(t: R, ranges: multiset<R>, span: R -> Span, n: nat)
    requires Latest(t, ranges, span, n)
    ensures t in ranges && span(t).lo <= n
  {
  }

  /** Nested ranges are not all found: behind the inner one the outer one is missed. */
  lemma NestedMissed(n: nat)
    requires 4 <= n <= 10
    ensures var ranges := multiset{Span(0, 10), Span(2, 3)};
            Finds(None, ranges, (s: Span) => s, n) && !Answers(None, ranges, (s: Span) => s, n)
  {
    var ranges := multiset{Span(0, 10), Span(2, 3)};
    assert Latest(Span(2, 3), ranges, (s: Span) => s, n);
    assert Span(0, 10) in ranges && Holds(Span(0, 10), n);
  }

  /** std::upper_bound: the first element the value is below. */
  method UpperBound(size: nat, below: nat -> bool) returns (k: nat)
    requires forall i, j | 0 <= i < j < size :: below(i) ==> below(j)
    ensures k <= size
    ensures forall i | 0 <= i < k :: !below(i)
    ensures forall i | k <= i < size :: below(i)
  {
    k := 0;
    var count := size;
    while count > 0
      invariant k + count <= size
      invariant forall i | 0 <= i < k :: !below(i)
      invariant forall i | k + count <= i < size :: below(i)
    {
      var step := count / 2;
      if !below(k + step) {
        k, count := k + step + 1, count - (step + 1);
      } else {
        count := step;
      }
    }
  }

  // ----- sorting ---------------------------------------------------------------------------------

  function Insert<R>(r: R, s: seq<R>, span: R -> Span): seq<R> {
    if s == [] || span(r).lo <= span(s[0]).lo then [r] + s else [s[0]] + Insert(r, s[1..], span)
  }

  /** std::sort by start.  Where ranges are disjoint no two have one start, and the
      order is determined. */
  function Sort<R>(s: seq<R>, span: R -> Span): seq<R> {
    if s == [] then [] else Insert(s[0], Sort(s[1..], span), span)
  }

  lemma {:induction false} InsertSame<R>(r: R, s: seq<R>, span: R -> Span)
    ensures multiset(Insert(r, s, span)) == multiset([r] + s)
    decreases |s|
  {
    if s == [] || span(r).lo <= span(s[0]).lo {
    } else {
      InsertSame(r, s[1..], span);
      assert s == [s[0]] + s[1..];
    }
  }

  lemma {:induction false} InsertAscends<R(!new)>(r: R, s: seq<R>, span: R -> Span)
    requires Ascending(s, span)
    ensures Ascending(Insert(r, s, span), span)
    decreases |s|
  {
    if s == [] || span(r).lo <= span(s[0]).lo {
    } else {
      var t := Insert(r, s[1..], span);
      InsertAscends(r, s[1..], span);
      InsertSame(r, s[1..], span);
      hide Insert;
      forall i | 0 <= i < |t| ensures span(s[0]).lo <= span(t[i]).lo {
        assert t[i] in multiset(t);
        assert t[i] == r || t[i] in s[1..];
      }
    }
  }

  lemma {:induction false} SortKeeps<R(!new)>(s: seq<R>, span: R -> Span)
    ensures Ascending(Sort(s, span), span) && multiset(Sort(s, span)) == multiset(s)
    decreases |s|
  {
    if s == [] {
    } else {
      SortKeeps(s[1..], span);
      InsertAscends(s[0], Sort(s[1..], span), span);
      InsertSame(s[0], Sort(s[1..], span), span);
      assert s == [s[0]] + s[1..];
    }
  }

  // ----- the resolver ------------------------------------------------------------------------------

  const UNKNOWN: Country := "??"

  /** An address as text, parsed. */
  datatype Key = NoAddress | V4(n: nat) | V6(bytes: Address6)

  class Resolver {
    var v4: seq<V4Range>
    var v6: seq<V6Range>

    ghost predicate Finalized()
      reads this
    {
      Ascending(v4, SpanV4) && Ascending(v6, SpanV6)
    }

    constructor (v4: seq<V4Range>, v6: seq<V6Range>)
      ensures Finalized() && multiset(this.v4) == multiset(v4) && multiset(this.v6) == multiset(v6)
    {
      this.v4, this.v6 := v4, v6;
      new;
      Finalize();
    }

    method Finalize()
      modifies this
      ensures Finalized() && multiset(v4) == multiset(old(v4)) && multiset(v6) == multiset(old(v6))
    {
      SortKeeps(v4, SpanV4);
      SortKeeps(v6, SpanV6);
      v4 := Sort(v4, SpanV4);
      v6 := Sort(v6, SpanV6);
    }

    /** nullptr is None. */
    method LookupV4(ip: nat) returns (r: Option<V4Range>)
      requires Finalized()
      ensures r == Scan(v4, SpanV4, ip)
      ensures Unshadowed(v4, SpanV4) ==> (r.None? <==> !Held(v4, SpanV4, ip))
      ensures Finds(r, multiset(v4), SpanV4, ip)
      ensures Disjoint(multiset(v4), SpanV4) ==> Answers(r, multiset(v4), SpanV4, ip)
    {
      var s := v4;
      var below := (i: nat) => i < |s| && ip < s[i].start;
      assert forall i | 0 <= i < |s| :: SpanV4(s[i]).lo == s[i].start;
      var k := UpperBound(|s|, below);
      forall i | 0 <= i < |s| ensures if i < k then SpanV4(s[i]).lo <= ip else ip < SpanV4(s[i]).lo {
        assert below(i) <==> i >= k;
      }
      ScanStopsAt(s, SpanV4, ip, k);
      ScanFinds(s, SpanV4, ip);
      if k == 0 {
        r := None;
      } else {
        r := if ip >= s[k - 1].start && ip <= s[k - 1].end then Some(s[k - 1]) else None;
      }
      hide Scan, Unshadowed, Held, Disjoint;
      if Unshadowed(v4, SpanV4) {
        EveryHeldFoundExactlyWhen(v4, SpanV4);
        assert Agrees(v4, SpanV4, ip);
      }
      if Disjoint(multiset(v4), SpanV4) {
        DisjointAnswered(r, multiset(v4), SpanV4, ip);
      }
    }

    method LookupV6(ip: Address6) returns (r: Option<V6Range>)
      requires Finalized()
      ensures r == Scan(v6, SpanV6, FromBigEndian(ip))
      ensures Unshadowed(v6, SpanV6) ==> (r.None? <==> !Held(v6, SpanV6, FromBigEndian(ip)))
      ensures Finds(r, multiset(v6), SpanV6, FromBigEndian(ip))
      ensures Disjoint(multiset(v6), SpanV6) ==> Answers(r, multiset(v6), SpanV6, FromBigEndian(ip))
    {
      var s := v6;
      forall i | 0 <= i < |s|
        ensures BytesLess(ip, s[i].start) <==> FromBigEndian(ip) < SpanV6(s[i]).lo
        ensures BytesLess(s[i].end, ip) <==> SpanV6(s[i]).hi < FromBigEndian(ip)
      {
        LexIsNumeric(ip, s[i].start);
        LexIsNumeric(s[i].end, ip);
      }
      var below := (i: nat) => i < |s| && BytesLess(ip, s[i].start);
      hide BytesLess;
      var k := UpperBound(|s|, below);
      forall i | 0 <= i < |s|
        ensures if i < k then SpanV6(s[i]).lo <= FromBigEndian(ip) else FromBigEndian(ip) < SpanV6(s[i]).lo
      {
        assert below(i) <==> i >= k;
      }
      ScanStopsAt(s, SpanV6, FromBigEndian(ip), k);
      ScanFinds(s, SpanV6, FromBigEndian(ip));
      if k == 0 {
        r := None;
      } else {
        r := if !BytesLess(ip, s[k - 1].start) && !BytesLess(s[k - 1].end, ip) then Some(s[k - 1]) else None;
      }
      hide Scan, Unshadowed, Held, Disjoint;
      if Unshadowed(v6, SpanV6) {
        EveryHeldFoundExactlyWhen(v6, SpanV6);
        assert Agrees(v6, SpanV6, FromBigEndian(ip));
      }
      if Disjoint(multiset(v6), SpanV6) {
        DisjointAnswered(r, multiset(v6), SpanV6, FromBigEndian(ip));
      }
    }

    /** The country of a parsed address, "??" where none is known. */
    method CountryFor(key: Key) returns (c: Country)
      requires Finalized()
      ensures key.V4? && Disjoint(multiset(v4), SpanV4) ==>
                forall r | r in multiset(v4) && Holds(SpanV4(r), key.n) ::
                  c == if |r.country| > 0 && r.country[0] == '?' then "??" else r.country
      ensures key.V6? && Disjoint(multiset(v6), SpanV6) ==>
                forall r | r in multiset(v6) && Holds(SpanV6(r), FromBigEndian(key.bytes)) ::
                  c == if |r.country| > 0 && r.country[0] == '?' then "??" else r.country
      ensures (key.V4? && forall r | r in multiset(v4) :: !Holds(SpanV4(r), key.n)) ==> c == "??"
      ensures (key.V6? && forall r | r in multiset(v6) :: !Holds(SpanV6(r), FromBigEndian(key.bytes))) ==> c == "??"
      ensures key.NoAddress? ==> c == "??"
    {
      hide Disjoint, Unshadowed, Scan, Held, Ascending;
      match key
      case NoAddress =>
        c := UNKNOWN;
      case V4(n) =>
        var r := LookupV4(n);
        c := if r.None? then UNKNOWN else CountryOf(r.value);
      case V6(bytes) =>
        var r := LookupV6(bytes);
        c := if r.None? then UNKNOWN else CountryOf(r.value);
    }
  }

  /** A range's country, two characters unless it is not known. */
  function CountryOf<A>(r: Range<A>): Country {
    if r.country != "" && r.country[0] == '?' then UNKNOWN else r.country
  }
}
