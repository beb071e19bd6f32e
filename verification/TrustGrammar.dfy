/** Texts made of terminated pieces: lines ending in a newline, fields ending in a
    space. */
module Pieces {
  function Terminated(parts: seq<string>, sep: char): string {
    if parts == [] then "" else parts[0] + [sep] + Terminated(parts[1..], sep)
  }

  lemma {:induction false} TerminatedAppend(a: seq<string>, b: seq<string>, sep: char)
    ensures Terminated(a + b, sep) == Terminated(a, sep) + Terminated(b, sep)
  {
    if a == [] {
      assert a + b == b;
    } else {
      assert (a + b)[1..] == a[1..] + b;
      TerminatedAppend(a[1..], b, sep);
    }
  }

  lemma NothingTerminated(sep: char)
    ensures Terminated([], sep) == ""
  {
  }

  lemma TerminatedOne(part: string, sep: char)
    ensures Terminated([part], sep) == part + [sep]
  {
    assert [part][1..] == [];
  }

  /** Reading one more piece up to its separator. */
  lemma PieceRead(s: string, start: nat, i: nat, parts: seq<string>, sep: char)
    requires start <= i < |s| && s[i] == sep && Terminated(parts, sep) == s[..start]
    ensures Terminated(parts + [s[start..i]], sep) == s[..i + 1]
  {
    TerminatedAppend(parts, [s[start..i]], sep);
    TerminatedOne(s[start..i], sep);
    assert s[..i + 1] == s[..start] + (s[start..i] + [sep]);
  }

  ghost predicate Free(parts: seq<string>, sep: char) {
    forall i | 0 <= i < |parts| :: parts[i] != "" && sep !in parts[i]
  }

  lemma NotShorter(a: string, u: string, b: string, v: string, sep: char)
    requires a + [sep] + u == b + [sep] + v
    ensures |a| < |b| ==> sep in b
  {
    if |a| < |b| {
      assert (a + [sep] + u)[|a|] == sep;
      assert (b + [sep] + v)[|a|] == b[|a|];
    }
  }

  lemma EmptyCut(parts: seq<string>, sep: char)
    ensures Terminated(parts, sep) == "" ==> parts == []
  {
  }

  lemma FirstPiece(a: string, u: string, b: string, v: string, sep: char)
    requires sep !in a && sep !in b && a + [sep] + u == b + [sep] + v
    ensures a == b && u == v
  {
    NotShorter(a, u, b, v, sep);
    NotShorter(b, v, a, u, sep);
    var s := a + [sep] + u;
    assert s[..|a|] == a && (b + [sep] + v)[..|b|] == b;
    assert s[|a| + 1..] == u && (b + [sep] + v)[|b| + 1..] == v;
  }

  /** What has been read of a text is the front of any way to cut it. */
  lemma {:induction false} ReadSoFar(done: seq<string>, rest: string, parts: seq<string>, sep: char)
    requires Free(done, sep) && Free(parts, sep)
    requires Terminated(done, sep) + rest == Terminated(parts, sep)
    ensures |done| <= |parts| && parts[..|done|] == done && rest == Terminated(parts[|done|..], sep)
  {
    if done == [] {
      assert parts[0..] == parts && Terminated(done, sep) + rest == rest;
    } else {
      var u := Terminated(done[1..], sep) + rest;
      assert Terminated(done, sep) + rest == done[0] + [sep] + u;
      assert parts != [];
      FirstPiece(done[0], u, parts[0], Terminated(parts[1..], sep), sep);
      ReadSoFar(done[1..], rest, parts[1..], sep);
      assert parts[1..][|done| - 1..] == parts[|done|..];
      assert parts[..|done|] == [parts[0]] + parts[1..][..|done| - 1] && done == [done[0]] + done[1..];
    }
  }

  /** There is at most one way to cut a text into pieces. */
  lemma OneCut(a: seq<string>, b: seq<string>, sep: char)
    requires Free(a, sep) && Free(b, sep) && Terminated(a, sep) == Terminated(b, sep)
    ensures a == b
  {
    assert Terminated(a, sep) + "" == Terminated(b, sep);
    ReadSoFar(a, "", b, sep);
    EmptyCut(b[|a|..], sep);
  }

  /** If an open piece is followed by its separator, every cut continues with it. */
  lemma NextPiece(done: seq<string>, piece: string, rest: string, parts: seq<string>, sep: char)
    requires Free(done, sep) && Free(parts, sep) && sep !in piece
    requires Terminated(done, sep) + (piece + [sep] + rest) == Terminated(parts, sep)
    ensures |done| < |parts| && parts[|done|] == piece
  {
    ReadSoFar(done, piece + [sep] + rest, parts, sep);
    var tail := parts[|done|..];
    assert |piece + [sep] + rest| > 0;
    assert tail != [];
    FirstPiece(piece, rest, tail[0], Terminated(tail[1..], sep), sep);
  }

  /** A text that does not end in the separator cannot be cut. */
  lemma {:induction false} EndsInSep(parts: seq<string>, sep: char)
    requires parts != []
    ensures var t := Terminated(parts, sep); t != "" && t[|t| - 1] == sep
  {
    if |parts| <= 1 {
    } else {
      EndsInSep(parts[1..], sep);
    }
  }

  /** Characters of a terminated text are separators or characters of a piece. */
  lemma {:induction false} CharsOf(parts: seq<string>, sep: char, c: char)
    requires c in Terminated(parts, sep) && c != sep
    ensures exists i :: 0 <= i < |parts| && c in parts[i]
  {
    if c in parts[0] {
    } else {
      CharsOf(parts[1..], sep, c);
      var i :| 0 <= i < |parts[1..]| && c in parts[1..][i];
      assert c in parts[i + 1];
    }
  }
}

/** The strict text grammar of the delegation document and of the signature bundle:
    printers for both, and parsers that accept exactly what is printed. */
module TrustGrammar {
  import opened Common
  import opened Bytes
  import opened Pieces
  import opened Decimals
  import opened Calendar
  import B64 = StrictBase64

  const MAX_BUNDLE_BYTES: nat := 64 * 1024
  const MAX_DELEGATION_BYTES: nat := 48 * 1024
  const MAX_DELEGATED_KEYS: nat := 8
  const MAX_ROOT_SIGS: nat := 3
  const VERSION_LIMIT: nat := 1_000_000_000_000_000_000

  // ----- lines and fields --------------------------------------------------------------

  predicate GoodLine(l: string) {
    l != "" && '\n' !in l && '\r' !in l && '\0' !in l
  }

  predicate GoodLines(ls: seq<string>) {
    forall i | 0 <= i < |ls| :: GoodLine(ls[i])
  }

  lemma GoodLinesFree(ls: seq<string>)
    requires GoodLines(ls)
    ensures Free(ls, '\n')
  {
  }

  method SplitLines(s: string) returns (ok: bool, lines: seq<string>)
    ensures ok ==> GoodLines(lines) && lines != [] && Terminated(lines, '\n') == s
    ensures !ok ==> forall ls | GoodLines(ls) && ls != [] :: Terminated(ls, '\n') != s
  {
    lines := [];
    hide Terminated;
    assert Terminated([], '\n') == "" by { NothingTerminated('\n'); }
    forall ls | GoodLines(ls) && ls != []
      ensures Terminated(ls, '\n') != "" && Terminated(ls, '\n')[|Terminated(ls, '\n')| - 1] == '\n'
    {
      EndsInSep(ls, '\n');
    }
    if s == "" || s[|s| - 1] != '\n' {
      return false, lines;
    }
    var start := 0;
    for i := 0 to |s|
      invariant 0 <= start <= i && GoodLines(lines) && Terminated(lines, '\n') == s[..start]
      invariant '\n' !in s[start..i] && '\r' !in s[start..i] && '\0' !in s[start..i]
      invariant i > 0 && s[i - 1] == '\n' ==> start == i && lines != []
    {
      var c := s[i];
      if c == '\r' || c == '\0' {
        NoSuchLines(s, i);
        return false, lines;
      }
      if c == '\n' {
        if i == start {
          EmptyLine(s, i, lines);
          return false, lines;
        }
        PieceRead(s, start, i, lines, '\n');
        lines := lines + [s[start..i]];
        start := i + 1;
      } else {
        assert s[start..i + 1] == s[start..i] + [c];
      }
    }
    assert s[..|s|] == s;
    ok := true;
  }

  lemma NoSuchLines(s: string, i: nat)
    requires i < |s| && (s[i] == '\r' || s[i] == '\0')
    ensures forall ls | GoodLines(ls) :: Terminated(ls, '\n') != s
  {
    forall ls | GoodLines(ls) && Terminated(ls, '\n') == s ensures false {
      CharsOf(ls, '\n', s[i]);
    }
  }

  lemma EmptyLine(s: string, i: nat, lines: seq<string>)
    requires i < |s| && s[i] == '\n' && GoodLines(lines) && Terminated(lines, '\n') == s[..i]
    ensures forall ls | GoodLines(ls) :: Terminated(ls, '\n') != s
  {
    forall ls | GoodLines(ls) && Terminated(ls, '\n') == s ensures false {
      assert s == s[..i] + ("" + ['\n'] + s[i + 1..]);
      NextPiece(lines, "", s[i + 1..], ls, '\n');
    }
  }

  /** Splits on single spaces into exactly n non-empty fields. */
  method SplitFields(s: string, n: nat) returns (ok: bool, f: seq<string>)
    ensures ok ==> |f| == n && Free(f, ' ') && Terminated(f, ' ') == s + " "
    ensures !ok ==> forall g | Free(g, ' ') && |g| == n :: Terminated(g, ' ') != s + " "
  {
    f := [];
    var start := 0;
    var t := s + " ";
    for i := 0 to |s| + 1
      invariant 0 <= start <= i && Free(f, ' ') && Terminated(f, ' ') == t[..start] && ' ' !in t[start..i]
      invariant i > 0 && t[i - 1] == ' ' ==> start == i
    {
      if i == |s| || s[i] == ' ' {
        assert t[i] == ' ';
        if i == start {
          EmptyField(t, i, f);
          return false, f;
        }
        PieceRead(t, start, i, f, ' ');
        assert t[start..i] == s[start..i];
        f := f + [s[start..i]];
        start := i + 1;
      } else {
        assert t[start..i + 1] == t[start..i] + [t[i]];
      }
    }
    assert t[..|s| + 1] == t;
    forall g | Free(g, ' ') && |g| == n && Terminated(g, ' ') == t ensures |f| == n {
      OneCut(f, g, ' ');
    }
    ok := |f| == n;
  }

  lemma EmptyField(t: string, i: nat, f: seq<string>)
    requires i < |t| && t[i] == ' ' && Free(f, ' ') && Terminated(f, ' ') == t[..i]
    ensures forall g | Free(g, ' ') :: Terminated(g, ' ') != t
  {
    forall g | Free(g, ' ') && Terminated(g, ' ') == t ensures false {
      assert t == t[..i] + ("" + [' '] + t[i + 1..]);
      NextPiece(f, "", t[i + 1..], g, ' ');
    }
  }

  /** The rest of a line after a fixed prefix. */
  function TakePrefix(line: string, prefix: string): (r: (bool, string))
    ensures r.0 ==> line == prefix + r.1
    ensures forall x: string :: line == prefix + x ==> r == (true, x)
  {
    if |line| < |prefix| || line[..|prefix|] != prefix then (false, "") else
      assert forall x: string :: line == prefix + x ==> x == line[|prefix|..];
      (true, line[|prefix|..])
  }

  predicate IsIdChar(c: char) {
    'a' <= c <= 'z' || '0' <= c <= '9' || c == '-'
  }

  /** Up to 32 of a to z, 0 to 9 and the hyphen, by their codes. */
  predicate ValidId(s: string) {
    0 < |s| <= 32
    && forall i | 0 <= i < |s| :: 97 <= s[i] as int <= 122 || 48 <= s[i] as int <= 57 || s[i] as int == 45
  }

  method IsId(s: string) returns (ok: bool)
    ensures ok <==> ValidId(s)
  {
    if s == "" || |s| > 32 {
      return false;
    }
    for i := 0 to |s|
      invariant forall j | 0 <= j < i :: IsIdChar(s[j])
    {
      if !IsIdChar(s[i]) {
        return false;
      }
    }
    ok := true;
  }

  predicate KnownPlatform(p: string) {
    p == "linux-amd64" || p == "windows-amd64"
  }

  predicate ValidVersion(v: nat) {
    0 < v < 1_000_000_000_000_000_000
  }

  method ParseVersion(s: string) returns (ok: bool, out: nat)
    ensures ok ==> ValidVersion(out) && s == Decimal(out)
    ensures !ok ==> forall v | ValidVersion(v) :: s != Decimal(v)
  {
    out := 0;
    assert Pow10(18) == VERSION_LIMIT by { assert Pow10(9) == 1_000_000_000; }
    forall v | ValidVersion(v) ensures 0 < |Decimal(v)| <= 18 && Decimal(v)[0] != '0' {
      DecimalLength(v, 18);
      NoLeadingZero(v);
    }
    if s == "" || |s| > 18 || s[0] == '0' {
      return false, 0;
    }
    for i := 0 to |s|
      invariant AllDigits(s[..i]) && out == Value(s[..i])
    {
      if s[i] < '0' || s[i] > '9' {
        return false, 0;
      }
      assert s[..i + 1] == s[..i] + [s[i]] && s[..i + 1][..i] == s[..i];
      out := out * 10 + (s[i] as int - '0' as int);
    }
    assert s[..|s|] == s;
    DecimalOfValue(s);
    ValueBound(s);
    Pow10Grows(|s|, 18);
    ok := true;
  }

  lemma {:induction false} Pow10Grows(a: nat, b: nat)
    requires a <= b
    ensures Pow10(a) <= Pow10(b)
    decreases b
  {
    if a >= b {
    } else {
      Pow10Grows(a, b - 1);
    }
  }

  // ----- the delegation document --------------------------------------------------------------

  datatype DelegatedKey = DelegatedKey(id: string, platform: string, spki: seq<Byte>)

  datatype Delegation = Delegation(version: nat, expires: int, keys: seq<DelegatedKey>)

  /** What this module leaves to the cryptographic library. */
  datatype Crypto = Crypto(verify: (seq<Byte>, seq<Byte>, seq<Byte>) -> bool, isSpki: seq<Byte> -> bool)

  predicate ValidKey(k: DelegatedKey, c: Crypto) {
    && ValidId(k.id) && (k.platform == "linux-amd64" || k.platform == "windows-amd64")
    && k.spki != [] && c.isSpki(k.spki)
  }

  function KeyFields(k: DelegatedKey): seq<string> {
    [k.id, k.platform, "ML-DSA-65", B64.Encode(k.spki)]
  }

  function FieldText(f: seq<string>): string
    requires f != []
  {
    EndsInSep(f, ' ');
    Terminated(f, ' ')[..|Terminated(f, ' ')| - 1]
  }

  function KeyLine(k: DelegatedKey): string {
    "key: " + FieldText(KeyFields(k))
  }

  /** Seconds since the epoch whose stamp can be written. */
  predicate IsExpiry(t: int) {
    t >= 0 && ValidStamp(StampAt(t))
  }

  function ExpiryText(t: int): string
    requires IsExpiry(t)
  {
    FormatStamp(StampAt(t))
  }

  function KeyLines(keys: seq<DelegatedKey>): (ls: seq<string>)
    ensures |ls| == |keys|
  {
    seq(|keys|, i requires 0 <= i < |keys| => KeyLine(keys[i]))
  }

  function DelegationLines(d: Delegation): seq<string>
    requires IsExpiry(d.expires)
  {
    ["ntm-delegation 1", "version: " + Decimal(d.version), "expires: " + ExpiryText(d.expires)] + KeyLines(d.keys)
  }

  function PrintDelegation(d: Delegation): string
    requires IsExpiry(d.expires)
  {
    Terminated(DelegationLines(d), '\n')
  }

  predicate DistinctIds(keys: seq<DelegatedKey>) {
    forall i, j | 0 <= i < j < |keys| :: keys[i].id != keys[j].id
  }

  predicate ValidDelegation(d: Delegation, c: Crypto) {
    && ValidVersion(d.version) && IsExpiry(d.expires)
    && 1 <= |d.keys| <= 8
    && (forall i | 0 <= i < |d.keys| :: ValidKey(d.keys[i], c))
    && DistinctIds(d.keys)
    && |PrintDelegation(d)| <= 49152
  }

  predicate Plain(s: string) {
    forall i | 0 <= i < |s| :: ' ' < s[i] <= '~'
  }

  lemma EncodePlain(b: seq<Byte>)
    ensures Plain(B64.Encode(b))
  {
    B64.EncodeAlphabet(b);
  }

  /** A text of plain fields and the spaces between them makes a good line. */
  lemma PlainFieldsGood(prefix: string, f: seq<string>)
    requires prefix != "" && (forall c | c in prefix :: c != '\n' && c != '\r' && c != '\0')
    requires f != [] && forall i | 0 <= i < |f| :: Plain(f[i])
    ensures GoodLine(prefix + FieldText(f))
  {
    var t := Terminated(f, ' ');
    EndsInSep(f, ' ');
    forall ch | ch in prefix + FieldText(f) ensures ch != '\n' && ch != '\r' && ch != '\0' {
      if ch !in prefix && ch != ' ' {
        assert ch in t;
        CharsOf(f, ' ', ch);
      }
    }
  }

  lemma PlainFree(f: seq<string>)
    requires forall i | 0 <= i < |f| :: f[i] != "" && Plain(f[i])
    ensures Free(f, ' ')
  {
  }

  lemma KeyFieldsFree(k: DelegatedKey, c: Crypto)
    requires ValidKey(k, c)
    ensures Free(KeyFields(k), ' ') && GoodLine(KeyLine(k))
  {
    EncodePlain(k.spki);
    IdPlain(k.id);
    assert Plain(k.platform) && Plain("ML-DSA-65");
    var f := KeyFields(k);
    assert forall i | 0 <= i < |f| :: f[i] != "" && Plain(f[i]);
    hide Plain, GoodLine, Free, B64.Encode, FieldText;
    PlainFree(f);
    PlainFieldsGood("key: ", f);
  }

  /** The line of a key, cut into its fields. */
  lemma KeyLineFields(k: DelegatedKey, line: string)
    ensures line == KeyLine(k) <==> exists x: string :: line == "key: " + x && Terminated(KeyFields(k), ' ') == x + " "
  {
    var f := KeyFields(k);
    var t := Terminated(f, ' ');
    EndsInSep(f, ' ');
    assert t == FieldText(f) + " ";
    if x: string :| line == "key: " + x && t == x + " " {
      assert (x + " ")[..|x|] == x;
    }
  }

  method ParseKeyLine(line: string, c: Crypto) returns (ok: bool, k: DelegatedKey)
    ensures ok ==> ValidKey(k, c) && line == KeyLine(k)
    ensures !ok ==> forall x | ValidKey(x, c) :: line != KeyLine(x)
  {
    k := DelegatedKey("", "", []);
    var (prefixed, rest) := TakePrefix(line, "key: ");
    if !prefixed {
      return false, k;
    }
    hide KeyLine, B64.Encode, Terminated, FieldText, ValidId, Free, GoodLine;
    forall x | ValidKey(x, c) ensures line == KeyLine(x) <==> Terminated(KeyFields(x), ' ') == rest + " " {
      KeyLineFields(x, line);
    }
    forall x | ValidKey(x, c) ensures Free(KeyFields(x), ' ') {
      KeyFieldsFree(x, c);
    }
    var f;
    ok, f := SplitFields(rest, 4);
    if !ok {
      assert forall x | ValidKey(x, c) :: |KeyFields(x)| == 4;
      return;
    }
    forall x | ValidKey(x, c) && line == KeyLine(x) ensures KeyFields(x) == f {
      OneCut(KeyFields(x), f, ' ');
    }
    ok := IsId(f[0]);
    if !ok || !KnownPlatform(f[1]) || f[2] != "ML-DSA-65" {
      assert forall x | ValidKey(x, c) && KeyFields(x) == f :: ValidId(f[0]);
      assert forall x | ValidKey(x, c) && KeyFields(x) == f :: KnownPlatform(f[1]) && f[2] == "ML-DSA-65";
      return false, k;
    }
    var spki;
    ok, spki := B64.B64Decode(f[3]);
    assert forall x | ValidKey(x, c) && KeyFields(x) == f :: B64.Encode(x.spki) == f[3];
    if !ok || !c.isSpki(spki) {
      forall x | ValidKey(x, c) && KeyFields(x) == f ensures ok && x.spki == spki {
        if ok { B64.EncodeInjective(x.spki, spki); }
      }
      return false, k;
    }
    k := DelegatedKey(f[0], f[1], spki);
    assert KeyFields(k) == f;
  }

  lemma VersionLineGood(v: nat)
    ensures GoodLine("version: " + Decimal(v))
  {
    var d := Decimal(v);
    assert Plain(d);
    PlainGood("version: ", d);
  }

  lemma ExpiryLineGood(t: int)
    requires IsExpiry(t)
    ensures GoodLine("expires: " + ExpiryText(t))
  {
    StampPlain(StampAt(t));
    PlainGood("expires: ", FormatStamp(StampAt(t)));
  }

  lemma StampPlain(x: Stamp)
    requires ValidStamp(x)
    ensures Plain(FormatStamp(x))
  {
    assert forall n: int | 0 <= n < 100 :: Plain(D2(n));
    assert Plain(D4(x.date.y));
  }

  lemma KeyLinesGood(keys: seq<DelegatedKey>, c: Crypto)
    requires forall i | 0 <= i < |keys| :: ValidKey(keys[i], c)
    ensures GoodLines(KeyLines(keys))
  {
    hide GoodLine, KeyLine, ValidKey;
    forall i | 0 <= i < |keys| ensures GoodLine(KeyLines(keys)[i]) {
      KeyFieldsFree(keys[i], c);
    }
  }

  lemma GoodLinesAppend(a: seq<string>, b: seq<string>)
    requires GoodLines(a) && GoodLines(b)
    ensures GoodLines(a + b)
  {
    hide GoodLine;
  }

  lemma DelegationLinesGood(d: Delegation, c: Crypto)
    requires ValidDelegation(d, c)
    ensures GoodLines(DelegationLines(d))
  {
    hide GoodLine, Decimal, ExpiryText, KeyLines, ValidKey, DistinctIds, PrintDelegation, IsExpiry;
    HeaderGood();
    VersionLineGood(d.version);
    ExpiryLineGood(d.expires);
    KeyLinesGood(d.keys, c);
    ThreeGood("ntm-delegation 1", "version: " + Decimal(d.version), "expires: " + ExpiryText(d.expires));
    hide GoodLines;
    GoodLinesAppend(["ntm-delegation 1", "version: " + Decimal(d.version), "expires: " + ExpiryText(d.expires)],
                    KeyLines(d.keys));
  }

  lemma HeaderGood()
    ensures GoodLine("ntm-delegation 1")
  {
  }

  lemma ThreeGood(a: string, b: string, c: string)
    requires GoodLine(a) && GoodLine(b) && GoodLine(c)
    ensures GoodLines([a, b, c])
  {
    hide GoodLine;
  }

  /** A document that prints a valid delegation has that delegation's lines. */
  lemma LinesOfDelegation(d: Delegation, c: Crypto, lines: seq<string>)
    requires ValidDelegation(d, c) && GoodLines(lines) && Terminated(lines, '\n') == PrintDelegation(d)
    ensures lines == DelegationLines(d)
  {
    DelegationLinesGood(d, c);
    GoodLinesFree(lines);
    GoodLinesFree(DelegationLines(d));
    OneCut(lines, DelegationLines(d), '\n');
  }

  lemma KeyLineInjective(a: DelegatedKey, b: DelegatedKey, c: Crypto)
    requires ValidKey(a, c) && ValidKey(b, c) && KeyLine(a) == KeyLine(b)
    ensures a == b
  {
    KeyFieldsFree(a, c);
    KeyFieldsFree(b, c);
    KeyLineFields(a, KeyLine(a));
    KeyLineFields(b, KeyLine(a));
    var x: string :| KeyLine(a) == "key: " + x && Terminated(KeyFields(a), ' ') == x + " ";
    var y: string :| KeyLine(a) == "key: " + y && Terminated(KeyFields(b), ' ') == y + " ";
    assert x == KeyLine(a)[5..] == y;
    OneCut(KeyFields(a), KeyFields(b), ' ');
    assert KeyFields(a)[0] == KeyFields(b)[0] && KeyFields(a)[1] == KeyFields(b)[1]
            && KeyFields(a)[3] == KeyFields(b)[3];
    B64.EncodeInjective(a.spki, b.spki);
  }

  /** Reads the key lines; fails on a bad key or a repeated id. */
  method ParseKeys(lines: seq<string>, c: Crypto) returns (ok: bool, keys: seq<DelegatedKey>)
    ensures ok ==> lines == KeyLines(keys) && DistinctIds(keys) && forall i | 0 <= i < |keys| :: ValidKey(keys[i], c)
    ensures !ok ==> forall ks | (forall i | 0 <= i < |ks| :: ValidKey(ks[i], c)) && DistinctIds(ks) ::
            lines != KeyLines(ks)
  {
    hide KeyLine, ValidKey;
    keys := [];
    for i := 0 to |lines|
      invariant |keys| == i && lines[..i] == KeyLines(keys) && DistinctIds(keys)
      invariant forall j | 0 <= j < i :: ValidKey(keys[j], c) && lines[j] == KeyLine(keys[j])
    {
      var k;
      ok, k := ParseKeyLine(lines[i], c);
      if !ok {
        forall ks | forall j | 0 <= j < |ks| :: ValidKey(ks[j], c) ensures lines != KeyLines(ks) {
          if i < |ks| {
            assert KeyLines(ks)[i] == KeyLine(ks[i]);
          }
        }
        return;
      }
      for j := 0 to i
        invariant forall m | 0 <= m < j :: keys[m].id != k.id
      {
        if keys[j].id == k.id {
          forall ks | (forall m | 0 <= m < |ks| :: ValidKey(ks[m], c)) && lines == KeyLines(ks)
            ensures !DistinctIds(ks)
          {
            assert lines[j] == KeyLine(ks[j]) && lines[i] == KeyLine(ks[i]);
            KeyLineInjective(ks[j], keys[j], c);
            KeyLineInjective(ks[i], k, c);
          }
          return false, keys;
        }
      }
      keys := keys + [k];
      assert lines[..i + 1] == lines[..i] + [lines[i]];
    }
    assert lines[..|lines|] == lines;
    ok := true;
  }

  /** Accepts exactly the printed forms of valid delegations. */
  method ParseDelegation(doc: string, c: Crypto) returns (ok: bool, out: Delegation)
    ensures ok ==> ValidDelegation(out, c) && PrintDelegation(out) == doc
    ensures !ok ==> forall d | ValidDelegation(d, c) :: PrintDelegation(d) != doc
  {
    hide ValidKey, KeyLine, GoodLine, FormatStamp, StampAt, ValidStamp;
    out := Delegation(0, 0, []);
    if |doc| > MAX_DELEGATION_BYTES {
      return false, out;
    }
    var lines;
    ok, lines := SplitLines(doc);
    if !ok {
      forall d | ValidDelegation(d, c) ensures PrintDelegation(d) != doc {
        DelegationLinesGood(d, c);
      }
      return;
    }
    forall d | ValidDelegation(d, c) && PrintDelegation(d) == doc ensures lines == DelegationLines(d) {
      LinesOfDelegation(d, c, lines);
    }
    if |lines| < 4 || |lines| > 3 + MAX_DELEGATED_KEYS || lines[0] != "ntm-delegation 1" {
      return false, out;
    }
    var (p1, versionText) := TakePrefix(lines[1], "version: ");
    if !p1 {
      return false, out;
    }
    var version;
    ok, version := ParseVersion(versionText);
    if !ok {
      return;
    }
    var (p2, timeText) := TakePrefix(lines[2], "expires: ");
    if !p2 {
      return false, out;
    }
    var expires;
    ghost var stamp;
    ok, expires, stamp := ParseTime(timeText);
    if !ok {
      forall d | ValidDelegation(d, c) ensures PrintDelegation(d) != doc {
        NotAnExpiry(d, timeText);
      }
      return;
    }
    var keys;
    ok, keys := ParseKeys(lines[3..], c);
    if !ok {
      forall d | ValidDelegation(d, c) ensures PrintDelegation(d) != doc {
        assert DelegationLines(d)[3..] == KeyLines(d.keys);
      }
      return;
    }
    out := Delegation(version, expires, keys);
    assert lines == [lines[0], lines[1], lines[2]] + lines[3..];
    assert lines == DelegationLines(out);
  }

  lemma NotAnExpiry(d: Delegation, text: string)
    requires IsExpiry(d.expires) && forall x | ValidStamp(x) :: text != FormatStamp(x)
    ensures DelegationLines(d)[2] != "expires: " + text
  {
    var x := StampAt(d.expires);
    assert ("expires: " + text)[9..] == text && ("expires: " + FormatStamp(x))[9..] == FormatStamp(x);
  }

  lemma DelegationLinesAt(d: Delegation)
    requires IsExpiry(d.expires)
    ensures var ls := DelegationLines(d);
            |ls| == 3 + |d.keys| && ls[1] == "version: " + Decimal(d.version) && ls[1][9..] == Decimal(d.version)
            && ls[2] == "expires: " + ExpiryText(d.expires) && ls[3..] == KeyLines(d.keys)
  {
    hide KeyLines, Decimal, ExpiryText;
  }

  lemma KeyLinesInjective(a: seq<DelegatedKey>, b: seq<DelegatedKey>, c: Crypto)
    requires (forall i | 0 <= i < |a| :: ValidKey(a[i], c)) && (forall i | 0 <= i < |b| :: ValidKey(b[i], c))
    requires KeyLines(a) == KeyLines(b)
    ensures a == b
  {
    hide ValidKey, KeyLine;
    assert |KeyLines(a)| == |a| && |KeyLines(b)| == |b|;
    forall i | 0 <= i < |a| ensures a[i] == b[i] {
      assert KeyLines(a)[i] == KeyLines(b)[i];
      KeyLineInjective(a[i], b[i], c);
    }
  }

  /** No two delegations have the same text. */
  lemma DelegationCanonical(a: Delegation, b: Delegation, c: Crypto)
    requires ValidDelegation(a, c) && ValidDelegation(b, c) && PrintDelegation(a) == PrintDelegation(b)
    ensures a == b
  {
    hide ValidKey, DelegationLines, KeyLines, Decimal, ExpiryText, GoodLine, DistinctIds;
    DelegationLinesGood(a, c);
    LinesOfDelegation(b, c, DelegationLines(a));
    DelegationLinesAt(a);
    DelegationLinesAt(b);
    ValueOfDecimal(a.version);
    ValueOfDecimal(b.version);
    SameExpiry(a.expires, b.expires, DelegationLines(a)[2]);
    KeyLinesInjective(a.keys, b.keys, c);
  }

  lemma SameExpiry(s: int, t: int, line: string)
    requires IsExpiry(s) && IsExpiry(t) && line == "expires: " + ExpiryText(s) && line == "expires: " + ExpiryText(t)
    ensures s == t
  {
    assert line[9..] == ExpiryText(s) && line[9..] == ExpiryText(t);
    WhichStamp(line[9..]);
    SecondsOfStep(s);
    SecondsOfStep(t);
  }

  // ----- the signature bundle ---------------------------------------------------------------------

  datatype RootSig = RootSig(id: string, sig: seq<Byte>)

  datatype Bundle = Bundle(document: seq<Byte>, rootSigs: seq<RootSig>, keyId: string, signature: seq<Byte>)

  lemma {:induction false} StrLessTransitive(a: string, b: string, c: string)
    requires StrLess(a, b) && StrLess(b, c)
    ensures StrLess(a, c)
  {
    if a == "" || !(a[0] == b[0] == c[0]) {
    } else {
      StrLessTransitive(a[1..], b[1..], c[1..]);
    }
  }

  lemma {:induction false} StrLessDiffers(a: string, b: string)
    requires StrLess(a, b)
    ensures a != b
  {
    if a == "" || a[0] != b[0] {
    } else {
      StrLessDiffers(a[1..], b[1..]);
    }
  }

  predicate Ascending(sigs: seq<RootSig>) {
    forall i | 0 <= i < |sigs| - 1 :: StrLess(sigs[i].id, sigs[i + 1].id)
  }

  lemma {:induction false} AscendingDistinct(sigs: seq<RootSig>, i: nat, j: nat)
    requires Ascending(sigs) && i < j < |sigs|
    ensures StrLess(sigs[i].id, sigs[j].id) && sigs[i].id != sigs[j].id
    decreases j
  {
    if i + 1 >= j {
    } else {
      AscendingDistinct(sigs, i, j - 1);
      StrLessTransitive(sigs[i].id, sigs[j - 1].id, sigs[j].id);
    }
    StrLessDiffers(sigs[i].id, sigs[j].id);
  }

  predicate ValidRootSig(s: RootSig) {
    ValidId(s.id) && s.sig != []
  }

  function RootSigFields(s: RootSig): seq<string> {
    [s.id, B64.Encode(s.sig)]
  }

  function RootSigLine(s: RootSig): string {
    "root-sig: " + FieldText(RootSigFields(s))
  }

  function RootSigLines(sigs: seq<RootSig>): (ls: seq<string>)
    ensures |ls| == |sigs|
  {
    seq(|sigs|, i requires 0 <= i < |sigs| => RootSigLine(sigs[i]))
  }

  function BundleLines(b: Bundle): seq<string> {
    ["NTMSIG 2", "delegation: " + B64.Encode(b.document)] + RootSigLines(b.rootSigs)
    + ["key-id: " + b.keyId, "signature: " + B64.Encode(b.signature)]
  }

  function PrintBundle(b: Bundle): string {
    Terminated(BundleLines(b), '\n')
  }

  predicate BundleParts(b: Bundle) {
    && b.document != [] && b.signature != [] && ValidId(b.keyId)
    && 1 <= |b.rootSigs| <= 3
    && (forall i | 0 <= i < |b.rootSigs| :: ValidRootSig(b.rootSigs[i]))
    && Ascending(b.rootSigs)
  }

  predicate ValidBundle(b: Bundle) {
    BundleParts(b) && |PrintBundle(b)| <= 65536
  }

  lemma PlainGood(prefix: string, s: string)
    requires prefix != "" && (forall c | c in prefix :: c != '\n' && c != '\r' && c != '\0') && Plain(s)
    ensures GoodLine(prefix + s)
  {
  }

  lemma RootSigFieldsFree(s: RootSig)
    requires ValidRootSig(s)
    ensures Free(RootSigFields(s), ' ') && GoodLine(RootSigLine(s))
  {
    EncodePlain(s.sig);
    IdPlain(s.id);
    var f := RootSigFields(s);
    assert forall i | 0 <= i < |f| :: f[i] != "" && Plain(f[i]);
    hide Plain, GoodLine, Free, B64.Encode, FieldText;
    PlainFree(f);
    PlainFieldsGood("root-sig: ", f);
  }

  lemma BundleLinesGood(b: Bundle)
    requires BundleParts(b)
    ensures GoodLines(BundleLines(b))
  {
    hide GoodLine, RootSigLine, ValidRootSig, Ascending, B64.Encode;
    EncodePlain(b.document);
    EncodePlain(b.signature);
    IdPlain(b.keyId);
    PrefixesClean();
    hide Plain, ValidId;
    PlainGood("delegation: ", B64.Encode(b.document));
    PlainGood("key-id: ", b.keyId);
    PlainGood("signature: ", B64.Encode(b.signature));
    forall i | 0 <= i < |b.rootSigs| ensures GoodLine(RootSigLines(b.rootSigs)[i]) {
      RootSigFieldsFree(b.rootSigs[i]);
    }
    assert BundleLines(b) == ["NTMSIG 2", "delegation: " + B64.Encode(b.document)] + RootSigLines(b.rootSigs)
      + ["key-id: " + b.keyId, "signature: " + B64.Encode(b.signature)];
  }

  lemma IdPlain(id: string)
    requires ValidId(id)
    ensures Plain(id)
  {
  }

  lemma PrefixesClean()
    ensures GoodLine("NTMSIG 2")
    ensures forall prefix | prefix in ["delegation: ", "key-id: ", "signature: "] ::
              forall c | c in prefix :: c != '\n' && c != '\r' && c != '\0'
    ensures "delegation: " in ["delegation: ", "key-id: ", "signature: "]
            && "key-id: " in ["delegation: ", "key-id: ", "signature: "]
            && "signature: " in ["delegation: ", "key-id: ", "signature: "]
  {
  }

  lemma LinesOfBundle(b: Bundle, lines: seq<string>)
    requires ValidBundle(b) && GoodLines(lines) && Terminated(lines, '\n') == PrintBundle(b)
    ensures lines == BundleLines(b)
  {
    BundleLinesGood(b);
    GoodLinesFree(lines);
    GoodLinesFree(BundleLines(b));
    OneCut(lines, BundleLines(b), '\n');
  }

  lemma RootSigLineFields(s: RootSig, line: string)
    ensures line == RootSigLine(s)
       <==> exists x: string :: line == "root-sig: " + x && Terminated(RootSigFields(s), ' ') == x + " "
  {
    var f := RootSigFields(s);
    var t := Terminated(f, ' ');
    EndsInSep(f, ' ');
    assert t == FieldText(f) + " ";
    if x: string :| line == "root-sig: " + x && t == x + " " {
      assert (x + " ")[..|x|] == x;
    }
  }

  lemma RootSigLineInjective(a: RootSig, b: RootSig)
    requires ValidRootSig(a) && ValidRootSig(b) && RootSigLine(a) == RootSigLine(b)
    ensures a == b
  {
    RootSigFieldsFree(a);
    RootSigFieldsFree(b);
    RootSigLineFields(a, RootSigLine(a));
    RootSigLineFields(b, RootSigLine(a));
    var x: string :| RootSigLine(a) == "root-sig: " + x && Terminated(RootSigFields(a), ' ') == x + " ";
    var y: string :| RootSigLine(a) == "root-sig: " + y && Terminated(RootSigFields(b), ' ') == y + " ";
    assert x == RootSigLine(a)[10..] == y;
    OneCut(RootSigFields(a), RootSigFields(b), ' ');
    assert RootSigFields(a)[0] == RootSigFields(b)[0] && RootSigFields(a)[1] == RootSigFields(b)[1];
    B64.EncodeInjective(a.sig, b.sig);
  }

  method ParseRootSigLine(line: string) returns (ok: bool, s: RootSig)
    ensures ok ==> ValidRootSig(s) && line == RootSigLine(s)
    ensures !ok ==> forall x | ValidRootSig(x) :: line != RootSigLine(x)
  {
    s := RootSig("", []);
    var (prefixed, rest) := TakePrefix(line, "root-sig: ");
    if !prefixed {
      return false, s;
    }
    forall x | ValidRootSig(x) ensures line == RootSigLine(x) <==> Terminated(RootSigFields(x), ' ') == rest + " "
                               ensures Free(RootSigFields(x), ' ') {
      RootSigLineFields(x, line);
      RootSigFieldsFree(x);
    }
    var f;
    ok, f := SplitFields(rest, 2);
    if !ok {
      assert forall x | ValidRootSig(x) :: |RootSigFields(x)| == 2;
      return;
    }
    forall x | ValidRootSig(x) && line == RootSigLine(x) ensures RootSigFields(x) == f {
      OneCut(RootSigFields(x), f, ' ');
    }
    ok := IsId(f[0]);
    if !ok {
      assert forall x | ValidRootSig(x) && RootSigFields(x) == f :: x.id == f[0];
      return;
    }
    var sig;
    ok, sig := B64.B64Decode(f[1]);
    if !ok {
      assert forall x | ValidRootSig(x) && RootSigFields(x) == f :: B64.Encode(x.sig) == f[1];
      return;
    }
    s := RootSig(f[0], sig);
    assert RootSigFields(s) == f;
  }

  ghost predicate GoodSigs(sigs: seq<RootSig>) {
    (forall i | 0 <= i < |sigs| :: ValidRootSig(sigs[i])) && Ascending(sigs)
  }

  method ParseRootSigs(lines: seq<string>) returns (ok: bool, sigs: seq<RootSig>)
    ensures ok ==> lines == RootSigLines(sigs) && GoodSigs(sigs)
    ensures !ok ==> forall ss | GoodSigs(ss) :: lines != RootSigLines(ss)
  {
    hide RootSigLine, ValidRootSig;
    sigs := [];
    for i := 0 to |lines|
      invariant |sigs| == i && lines[..i] == RootSigLines(sigs) && GoodSigs(sigs)
      invariant forall j | 0 <= j < i :: lines[j] == RootSigLine(sigs[j])
    {
      var s;
      ok, s := ParseRootSigLine(lines[i]);
      if !ok {
        forall ss | GoodSigs(ss) ensures lines != RootSigLines(ss) {
          if i < |ss| {
            assert RootSigLines(ss)[i] == RootSigLine(ss[i]);
          }
        }
        return;
      }
      if i > 0 && !StrLess(sigs[i - 1].id, s.id) {
        forall ss | (forall j | 0 <= j < |ss| :: ValidRootSig(ss[j])) && lines == RootSigLines(ss)
          ensures !Ascending(ss)
        {
          assert lines[i - 1] == RootSigLine(ss[i - 1]) && lines[i] == RootSigLine(ss[i]);
          RootSigLineInjective(ss[i - 1], sigs[i - 1]);
          RootSigLineInjective(ss[i], s);
        }
        return false, sigs;
      }
      sigs := sigs + [s];
      assert lines[..i + 1] == lines[..i] + [lines[i]];
    }
    assert lines[..|lines|] == lines;
    ok := true;
  }

  /** Where each part of a bundle stands. */
  predicate BundleAt(b: Bundle, lines: seq<string>) {
    var n := |b.rootSigs|;
    && |lines| == n + 4 && lines[0] == "NTMSIG 2" && lines[1] == "delegation: " + B64.Encode(b.document)
    && lines[2..2 + n] == RootSigLines(b.rootSigs)
    && lines[2 + n] == "key-id: " + b.keyId && lines[3 + n] == "signature: " + B64.Encode(b.signature)
  }

  lemma BundleLinesAt(b: Bundle, lines: seq<string>)
    requires lines == BundleLines(b)
    ensures BundleAt(b, lines)
  {
    hide RootSigLines, B64.Encode;
  }

  /** A line that is a prefix and the encoding of some bytes. */
  method ParseB64Line(line: string, prefix: string) returns (ok: bool, bytes: seq<Byte>)
    ensures ok ==> bytes != [] && line == prefix + B64.Encode(bytes)
    ensures !ok ==> forall b: seq<Byte> | b != [] :: line != prefix + B64.Encode(b)
  {
    hide B64.Encode;
    bytes := [];
    var (prefixed, rest) := TakePrefix(line, prefix);
    ok := prefixed;
    if ok {
      ok, bytes := B64.B64Decode(rest);
    }
  }

  method ParseIdLine(line: string, prefix: string) returns (ok: bool, id: string)
    ensures ok ==> ValidId(id) && line == prefix + id
    ensures !ok ==> forall x | ValidId(x) :: line != prefix + x
  {
    hide ValidId;
    var (prefixed, rest) := TakePrefix(line, prefix);
    ok, id := prefixed, rest;
    if ok {
      ok := IsId(rest);
    }
  }

  method ParseBundleLines(lines: seq<string>) returns (ok: bool, out: Bundle)
    ensures ok ==> BundleParts(out) && BundleLines(out) == lines
    ensures !ok ==> forall b | BundleParts(b) :: BundleLines(b) != lines
  {
    hide RootSigLines, ValidId, ValidRootSig, Ascending, BundleLines, B64.Encode;
    ok, out := false, Bundle([], [], "", []);
    forall b | BundleParts(b) && BundleLines(b) == lines ensures BundleAt(b, lines) && GoodSigs(b.rootSigs) {
      BundleLinesAt(b, lines);
    }
    if lines == [] || lines[0] != "NTMSIG 2" || |lines| < 5 || |lines| > 4 + MAX_ROOT_SIGS {
      return;
    }
    var n := |lines| - 4;
    var document, rootSigs, keyId, signature;
    ok, document := ParseB64Line(lines[1], "delegation: ");
    if !ok { return; }
    ok, rootSigs := ParseRootSigs(lines[2..2 + n]);
    if !ok { return; }
    ok, keyId := ParseIdLine(lines[2 + n], "key-id: ");
    if !ok { return; }
    ok, signature := ParseB64Line(lines[3 + n], "signature: ");
    if !ok { return; }
    out := Bundle(document, rootSigs, keyId, signature);
    assert |RootSigLines(rootSigs)| == n;
    LinesAreBundle(out, lines, n);
  }

  /** Accepts exactly the printed forms of valid bundles. */
  method ParseBundle(s: string) returns (ok: bool, out: Bundle)
    ensures ok ==> ValidBundle(out) && PrintBundle(out) == s
    ensures !ok ==> forall b | ValidBundle(b) :: PrintBundle(b) != s
  {
    hide BundleParts, GoodLine, BundleLines;
    out := Bundle([], [], "", []);
    if |s| > MAX_BUNDLE_BYTES {
      return false, out;
    }
    forall b | ValidBundle(b) ensures GoodLines(BundleLines(b)) && BundleLines(b) != [] {
      BundleLinesGood(b);
      BundleLinesAt(b, BundleLines(b));
    }
    var lines;
    ok, lines := SplitLines(s);
    if !ok {
      return;
    }
    forall b | ValidBundle(b) && PrintBundle(b) == s ensures BundleLines(b) == lines {
      LinesOfBundle(b, lines);
    }
    ok, out := ParseBundleLines(lines);
  }

  lemma LinesAreBundle(b: Bundle, lines: seq<string>, n: nat)
    requires n == |b.rootSigs| && |lines| == n + 4 && lines[0] == "NTMSIG 2"
    requires lines[1] == "delegation: " + B64.Encode(b.document) && lines[2..2 + n] == RootSigLines(b.rootSigs)
    requires lines[2 + n] == "key-id: " + b.keyId && lines[3 + n] == "signature: " + B64.Encode(b.signature)
    ensures lines == BundleLines(b)
  {
    hide RootSigLines, B64.Encode;
    assert lines == [lines[0], lines[1]] + lines[2..2 + n] + [lines[2 + n], lines[3 + n]];
  }

  /** No two bundles have the same bytes. */
  lemma BundleCanonical(a: Bundle, b: Bundle)
    requires ValidBundle(a) && ValidBundle(b) && PrintBundle(a) == PrintBundle(b)
    ensures a == b
  {
    BundleLinesGood(a);
    LinesOfBundle(b, BundleLines(a));
    BundleLinesAt(a, BundleLines(a));
    BundleLinesAt(b, BundleLines(a));
    var lines, n := BundleLines(a), |a.rootSigs|;
    assert lines[1][12..] == B64.Encode(a.document) && lines[1][12..] == B64.Encode(b.document);
    B64.EncodeInjective(a.document, b.document);
    assert lines[2 + n][8..] == a.keyId && lines[2 + n][8..] == b.keyId;
    assert lines[3 + n][11..] == B64.Encode(a.signature) && lines[3 + n][11..] == B64.Encode(b.signature);
    B64.EncodeInjective(a.signature, b.signature);
    forall i | 0 <= i < n ensures a.rootSigs[i] == b.rootSigs[i] {
      assert RootSigLines(a.rootSigs)[i] == RootSigLines(b.rootSigs)[i];
      RootSigLineInjective(a.rootSigs[i], b.rootSigs[i]);
    }
  }
}
