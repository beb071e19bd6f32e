/** The server's base64url pair: an encoder and a lenient decoder. */
module Base64Url {
  import opened Common
  import opened Bytes
  import B64 = StrictBase64

  function UrlChar(c: char): char {
    if c == '+' then '-' else if c == '/' then '_' else c
  }

  function UrlChars(s: string): (t: string)
    ensures |t| == |s|
  {
    seq(|s|, i requires 0 <= i < |s| => UrlChar(s[i]))
  }

  function StripPad(s: string): string {
    if s != "" && s[|s| - 1] == '=' then StripPad(s[..|s| - 1]) else s
  }

  function Encode(b: seq<Byte>): string {
    StripPad(UrlChars(B64.Encode(b)))
  }

  lemma {:induction false} EncodeAppend(a: seq<Byte>, b: seq<Byte>)
    requires |a| % 3 == 0
    ensures B64.Encode(a + b) == B64.Encode(a) + B64.Encode(b)
    decreases |a|
  {
    hide B64.Quad;
    if a == [] {
      assert a + b == b;
    } else {
      EncodeAppend(a[3..], b);
      assert (a + b)[3..] == a[3..] + b;
      assert (a + b)[0] == a[0] && (a + b)[1] == a[1] && (a + b)[2] == a[2];
      Regroup(B64.Quad(a[0], a[1], a[2]), B64.Encode(a[3..]), B64.Encode(b));
    }
  }

  /** The four characters of up to three bytes from i on. */
  method GroupAt(data: seq<Byte>, i: nat) returns (four: string)
    requires i < |data|
    ensures four == B64.Encode(data[i..if i + 3 <= |data| then i + 3 else |data|])
  {
    var x, y, z := data[i], if i + 1 < |data| then data[i + 1] else 0, if i + 2 < |data| then data[i + 2] else 0;
    four := [B64.Sym(x / 4), B64.Sym(x % 4 * 16 + y / 16),
             if i + 1 < |data| then B64.Sym(y % 16 * 4 + z / 64) else '=',
             if i + 2 < |data| then B64.Sym(z % 64) else '='];
    ghost var g := data[i..if i + 3 <= |data| then i + 3 else |data|];
    hide B64.Sym;
    if |g| == 3 {
      assert g[3..] == [];
      assert B64.Encode(g) == B64.Quad(x, y, z);
    } else if |g| == 2 {
      assert B64.Encode(g) == B64.Quad(x, y, 0)[..3] + "=";
    } else {
      assert B64.Encode(g) == B64.Quad(x, 0, 0)[..2] + "==";
    }
  }

  method ToBase64url(data: seq<Byte>) returns (out: string)
    ensures out == Encode(data)
  {
    hide B64.Encode;
    out := "";
    assert B64.Encode([]) == "" by { EmptyEncodes(); }
    var i := 0;
    assert data[..0] == [];
    while i < |data|
      invariant 0 <= i && (i < |data| ==> i % 3 == 0)
      invariant out == B64.Encode(data[..if i <= |data| then i else |data|])
    {
      var four := GroupAt(data, i);
      ghost var end := if i + 3 <= |data| then i + 3 else |data|;
      EncodeAppend(data[..i], data[i..end]);
      assert data[..end] == data[..i] + data[i..end];
      out := out + four;
      i := i + 3;
    }
    assert data[..|data|] == data;
    for k := 0 to |out|
      invariant |out| == |B64.Encode(data)|
      invariant forall j | 0 <= j < k :: out[j] == UrlChar(B64.Encode(data)[j])
      invariant forall j | k <= j < |out| :: out[j] == B64.Encode(data)[j]
    {
      out := out[k := UrlChar(out[k])];
    }
    assert out == UrlChars(B64.Encode(data));
    while out != "" && out[|out| - 1] == '='
      invariant StripPad(out) == Encode(data)
      decreases |out|
    {
      out := out[..|out| - 1];
    }
  }

  lemma EmptyEncodes()
    ensures B64.Encode([]) == ""
  {
  }

  // ----- decoding ------------------------------------------------------------------------

  /** The decoder's table: both alphabets, -1 for every other byte. */
  function Dec(c: char): (v: int)
    ensures -1 <= v < 64
  {
    if c == '-' then 62 else if c == '_' then 63 else B64.Val(c)
  }

  /** Size of a carry of so many bits. */
  function P(bits: nat): nat {
    if bits == 0 then 1 else if bits == 2 then 4 else if bits == 4 then 16 else 64
  }

  predicate Carry(carry: nat, bits: nat) {
    (bits == 0 || bits == 2 || bits == 4 || bits == 6) && carry < P(bits)
  }

  /** Bytes still to come when the last `bits` bits read are held in carry. */
  function Decode(s: string, carry: nat, bits: nat): seq<Byte>
    requires Carry(carry, bits)
    decreases |s|
  {
    if s == "" then []
    else if Dec(s[0]) < 0 then Decode(s[1..], carry, bits)
    else
      var x := carry * 64 + Dec(s[0]);
      if bits == 0 then Decode(s[1..], x, 6)
      else [x / P(bits - 2)] + Decode(s[1..], x % P(bits - 2), bits - 2)
  }

  /** The source keeps all bits read in a 32-bit accumulator that loses its high
      bits; only the low ones are ever used. */
  method FromBase64url(s: string) returns (out: seq<Byte>)
    ensures out == Decode(s, 0, 0)
  {
    out := [];
    var acc, bits := 0, 0;
    assert s[0..] == s;
    for i := 0 to |s|
      invariant 0 <= acc < U32 && Carry(acc % P(bits), bits)
      invariant Decode(s, 0, 0) == out + Decode(s[i..], acc % P(bits), bits)
    {
      var v := Dec(s[i]);
      assert s[i..][1..] == s[i + 1..];
      if v >= 0 {
        ghost var carry := acc % P(bits);
        LowBits(acc, v, bits);
        acc := (acc * 64 + v) % U32;
        bits := bits + 6;
        if bits >= 8 {
          bits := bits - 8;
          out := out + [acc / P(bits) % 256];
        }
      }
    }
    assert s[|s|..] == "";
  }

  lemma Mod64(k: nat, r: nat)
    ensures (64 * k + r) % 64 == r % 64
  {
    assert 64 * k + r == 64 * (k + r / 64) + r % 64;
  }

  lemma Mod256(k: nat, r: nat)
    ensures (256 * k + r) % 256 == r % 256
  {
    assert 256 * k + r == 256 * (k + r / 256) + r % 256;
  }

  lemma Mod1024(k: nat, r: nat)
    ensures (1024 * k + r) % 1024 == r % 1024
  {
    assert 1024 * k + r == 1024 * (k + r / 1024) + r % 1024;
  }

  lemma Mod4096(k: nat, r: nat)
    ensures (4096 * k + r) % 4096 == r % 4096
  {
    assert 4096 * k + r == 4096 * (k + r / 4096) + r % 4096;
  }

  lemma AddMultiple(m: nat, k: nat, r: nat)
    requires m == 64 || m == 256 || m == 1024 || m == 4096
    ensures (m * k + r) % m == r % m
  {
    if m == 64 {
      Mod64(k, r);
    } else if m == 256 {
      Mod256(k, r);
    } else if m == 1024 {
      Mod1024(k, r);
    } else {
      Mod4096(k, r);
    }
  }

  lemma DropHigh(n: nat, m: nat)
    requires m == 64 || m == 256 || m == 1024 || m == 4096
    ensures n % U32 % m == n % m
  {
    var q, r := n / U32, n % U32;
    var k := if m == 64 then 67108864 else if m == 256 then 16777216 else if m == 1024 then 4194304 else 1048576;
    AddMultiple(m, k * q, r);
    assert m * k == U32;
    assert m * (k * q) + r == n;
  }

  lemma ShiftIn(acc: nat, v: nat, p: nat)
    requires v < 64 && (p == 1 || p == 4 || p == 16 || p == 64)
    ensures (acc * 64 + v) % U32 % (64 * p) == acc % p * 64 + v
  {
    DropHigh(acc * 64 + v, 64 * p);
    Carried(acc, v, p);
  }

  lemma Carried(acc: nat, v: nat, p: nat)
    requires v < 64 && (p == 1 || p == 4 || p == 16 || p == 64)
    ensures (acc * 64 + v) % (64 * p) == acc % p * 64 + v
  {
    if p == 1 {
      Refill(acc, 0, v, 64);
    } else if p == 4 {
      Refill(acc / 4, acc % 4, v, 256);
    } else if p == 16 {
      Refill(acc / 16, acc % 16, v, 1024);
    } else {
      Refill(acc / 64, acc % 64, v, 4096);
    }
  }

  lemma Refill(q: nat, r: nat, v: nat, m: nat)
    requires m == 64 || m == 256 || m == 1024 || m == 4096
    requires v < 64 && 64 * r + v < m
    ensures (m * q + (64 * r + v)) % m == 64 * r + v
  {
    AddMultiple(m, q, 64 * r + v);
  }

  lemma ShiftOut(n: nat, d: nat)
    requires d == 1 || d == 4 || d == 16
    ensures n / d % 256 == n % (256 * d) / d && n % d == n % (256 * d) % d
  {
    var q, r := n / (256 * d), n % (256 * d);
    if d == 4 {
      assert n == 1024 * q + r && n / 4 == 256 * q + r / 4;
    } else if d == 16 {
      assert n == 4096 * q + r && n / 16 == 256 * q + r / 16;
    }
  }

  lemma LowBits(acc: nat, v: nat, bits: nat)
    requires acc < U32 && v < 64 && Carry(acc % P(bits), bits)
    ensures var x, next := acc % P(bits) * 64 + v, (acc * 64 + v) % U32;
            if bits == 0 then next % 64 == x && x == v
            else next / P(bits - 2) % 256 == x / P(bits - 2) && next % P(bits - 2) == x % P(bits - 2)
  {
    ShiftIn(acc, v, P(bits));
    if bits > 0 {
      ShiftOut((acc * 64 + v) % U32, P(bits - 2));
    }
  }

  // ----- round trip ------------------------------------------------------------------------

  lemma DecUrl(v: int)
    requires 0 <= v < 64
    ensures Dec(UrlChar(B64.Sym(v))) == v && UrlChar(B64.Sym(v)) != '='
  {
  }

  function Short(b: seq<Byte>): string {
    if b == [] then ""
    else if |b| == 1 then UrlChars(B64.Quad(b[0], 0, 0)[..2])
    else if |b| == 2 then UrlChars(B64.Quad(b[0], b[1], 0)[..3])
    else UrlChars(B64.Quad(b[0], b[1], b[2])) + Short(b[3..])
  }

  lemma {:induction false} StripAfter(s: string, t: string)
    requires s != "" && s[|s| - 1] != '='
    ensures StripPad(s + t) == s + StripPad(t)
    decreases |t|
  {
    if t == "" {
      assert s + t == s;
    } else if t[|t| - 1] == '=' {
      assert (s + t)[..|s + t| - 1] == s + t[..|t| - 1];
      StripAfter(s, t[..|t| - 1]);
    }
  }

  lemma UrlCharsAppend(s: string, t: string)
    ensures UrlChars(s + t) == UrlChars(s) + UrlChars(t)
  {
  }

  lemma StripTwo(s: string)
    requires s != "" && s[|s| - 1] != '='
    ensures StripPad(s) == s && StripPad(s + "=") == s && StripPad(s + "==") == s
  {
    assert (s + "=")[..|s|] == s && (s + "==")[..|s| + 1] == s + "=";
  }

  lemma QuadEnds(x: Byte, y: Byte, z: Byte)
    ensures var q := UrlChars(B64.Quad(x, y, z)); |q| == 4 && q[1] != '=' && q[2] != '=' && q[3] != '='
  {
    DecUrl(x % 4 * 16 + y / 16);
    DecUrl(y % 16 * 4 + z / 64);
    DecUrl(z % 64);
  }

  lemma {:induction false} EncodeIsShort(b: seq<Byte>)
    ensures Encode(b) == Short(b)
    decreases |b|
  {
    hide B64.Quad, UrlChar;
    if b == [] {
    } else {
      QuadEnds(b[0], if |b| > 1 then b[1] else 0, if |b| > 2 then b[2] else 0);
      var q := B64.Quad(b[0], if |b| > 1 then b[1] else 0, if |b| > 2 then b[2] else 0);
      if |b| >= 3 {
        UrlCharsAppend(q, B64.Encode(b[3..]));
        StripAfter(UrlChars(q), UrlChars(B64.Encode(b[3..])));
        EncodeIsShort(b[3..]);
      } else if |b| == 2 {
        UrlCharsAppend(q[..3], "=");
        PadStays();
        StripTwo(UrlChars(q[..3]));
      } else {
        UrlCharsAppend(q[..2], "==");
        PadStays();
        StripTwo(UrlChars(q[..2]));
      }
    }
  }

  lemma PadStays()
    ensures UrlChars("=") == "=" && UrlChars("==") == "=="
  {
  }

  lemma DecodeTwo(c0: char, c1: char, rest: string, v0: int, v1: int)
    requires v0 == Dec(c0) >= 0 && v1 == Dec(c1) >= 0
    ensures Decode([c0, c1] + rest, 0, 0) == [(v0 * 64 + v1) / 16] + Decode(rest, (v0 * 64 + v1) % 16, 4)
  {
    var s := [c0, c1] + rest;
    assert s[1..] == [c1] + rest && s[1..][1..] == rest;
    assert Decode(s, 0, 0) == Decode(s[1..], v0, 6);
  }

  lemma DecodeThird(c2: char, rest: string, carry: nat, v2: int)
    requires v2 == Dec(c2) >= 0 && carry < 16
    ensures Decode([c2] + rest, carry, 4) == [carry * 16 + v2 / 4] + Decode(rest, v2 % 4, 2)
  {
    var s := [c2] + rest;
    assert s[1..] == rest && s[0] == c2;
    var x := carry * 64 + v2;
    assert x / 4 == carry * 16 + v2 / 4 && x % 4 == v2 % 4;
  }

  lemma DecodeFourth(c3: char, rest: string, carry: nat, v3: int)
    requires v3 == Dec(c3) >= 0 && carry < 4
    ensures Decode([c3] + rest, carry, 2) == [carry * 64 + v3] + Decode(rest, 0, 0)
  {
    var s := [c3] + rest;
    assert s[1..] == rest && s[0] == c3;
  }

  /** One group of four characters gives three bytes. */
  lemma DecodeFour(c0: char, c1: char, c2: char, c3: char, rest: string, v0: int, v1: int, v2: int, v3: int)
    requires v0 == Dec(c0) >= 0 && v1 == Dec(c1) >= 0 && v2 == Dec(c2) >= 0 && v3 == Dec(c3) >= 0
    ensures Decode([c0, c1, c2, c3] + rest, 0, 0)
         == [v0 * 4 + v1 / 16, v1 % 16 * 16 + v2 / 4, v2 % 4 * 64 + v3] + Decode(rest, 0, 0)
  {
    hide Decode;
    assert (v0 * 64 + v1) / 16 == v0 * 4 + v1 / 16 && (v0 * 64 + v1) % 16 == v1 % 16;
    assert [c0, c1, c2, c3] + rest == [c0, c1] + ([c2] + ([c3] + rest));
    DecodeTwo(c0, c1, [c2] + ([c3] + rest), v0, v1);
    DecodeThird(c2, [c3] + rest, v1 % 16, v2);
    DecodeFourth(c3, rest, v2 % 4, v3);
  }

  lemma DecodeShort(c0: char, c1: char, c2: char, v0: int, v1: int, v2: int)
    requires v0 == Dec(c0) >= 0 && v1 == Dec(c1) >= 0 && v2 == Dec(c2) >= 0
    ensures Decode([c0, c1, c2], 0, 0) == [v0 * 4 + v1 / 16, v1 % 16 * 16 + v2 / 4]
    ensures Decode([c0, c1], 0, 0) == [v0 * 4 + v1 / 16]
  {
    assert (v0 * 64 + v1) / 16 == v0 * 4 + v1 / 16 && (v0 * 64 + v1) % 16 == v1 % 16;
    assert [c0, c1, c2] == [c0, c1] + ([c2] + "") && [c0, c1] == [c0, c1] + "";
    DecodeTwo(c0, c1, [c2] + "", v0, v1);
    DecodeTwo(c0, c1, "", v0, v1);
    DecodeThird(c2, "", v1 % 16, v2);
  }

  lemma Symbols(x: Byte, y: Byte, z: Byte)
    ensures var q := UrlChars(B64.Quad(x, y, z));
            |q| == 4 && Dec(q[0]) == x / 4 && Dec(q[1]) == x % 4 * 16 + y / 16 && Dec(q[2]) == y % 16 * 4 + z / 64
                && Dec(q[3]) == z % 64
  {
    DecUrl(x / 4);
    DecUrl(x % 4 * 16 + y / 16);
    DecUrl(y % 16 * 4 + z / 64);
    DecUrl(z % 64);
  }

  lemma Unpacked(x: Byte, y: Byte, z: Byte)
    ensures var v0, v1, v2, v3 := x / 4, x % 4 * 16 + y / 16, y % 16 * 4 + z / 64, z % 64;
            v0 * 4 + v1 / 16 == x && v1 % 16 * 16 + v2 / 4 == y && v2 % 4 * 64 + v3 == z
  {
  }

  lemma GroupDecodes(x: Byte, y: Byte, z: Byte, rest: string)
    ensures Decode(UrlChars(B64.Quad(x, y, z)) + rest, 0, 0) == [x, y, z] + Decode(rest, 0, 0)
  {
    hide Decode, B64.Quad, UrlChar, Dec;
    Symbols(x, y, z);
    Unpacked(x, y, z);
    var q := UrlChars(B64.Quad(x, y, z));
    assert q == [q[0], q[1], q[2], q[3]];
    DecodeFour(q[0], q[1], q[2], q[3], rest, Dec(q[0]), Dec(q[1]), Dec(q[2]), Dec(q[3]));
  }

  lemma EndDecodes(x: Byte, y: Byte)
    ensures Decode(UrlChars(B64.Quad(x, y, 0)[..3]), 0, 0) == [x, y]
    ensures y == 0 ==> Decode(UrlChars(B64.Quad(x, y, 0)[..2]), 0, 0) == [x]
  {
    hide Decode, B64.Quad, UrlChar, Dec;
    Symbols(x, y, 0);
    Unpacked(x, y, 0);
    var q := UrlChars(B64.Quad(x, y, 0));
    assert UrlChars(B64.Quad(x, y, 0)[..3]) == [q[0], q[1], q[2]];
    assert UrlChars(B64.Quad(x, y, 0)[..2]) == [q[0], q[1]];
    DecodeShort(q[0], q[1], q[2], Dec(q[0]), Dec(q[1]), Dec(q[2]));
  }

  lemma ShortOne(b: seq<Byte>)
    requires |b| == 1
    ensures b == [b[0]] && Short(b) == UrlChars(B64.Quad(b[0], 0, 0)[..2])
  {
    hide UrlChars;
  }

  lemma ShortTwo(b: seq<Byte>)
    requires |b| == 2
    ensures b == [b[0], b[1]] && Short(b) == UrlChars(B64.Quad(b[0], b[1], 0)[..3])
  {
    hide UrlChars;
  }

  lemma ShortMore(b: seq<Byte>)
    requires |b| >= 3
    ensures Short(b) == UrlChars(B64.Quad(b[0], b[1], b[2])) + Short(b[3..])
  {
    hide UrlChars, B64.Quad;
  }

  lemma FrontThree(b: seq<Byte>)
    requires |b| >= 3
    ensures b == [b[0], b[1], b[2]] + b[3..]
  {
  }

  lemma NothingDecodes()
    ensures Short([]) == "" && Decode("", 0, 0) == []
  {
  }

  lemma {:induction false} ShortDecodes(b: seq<Byte>)
    ensures Decode(Short(b), 0, 0) == b
    decreases |b|
  {
    hide Decode, Short, B64.Quad, UrlChars;
    NothingDecodes();
    if b == [] {
    } else {
      if |b| >= 3 {
        ShortMore(b);
        FrontThree(b);
        GroupDecodes(b[0], b[1], b[2], Short(b[3..]));
        ShortDecodes(b[3..]);
      } else if |b| == 2 {
        ShortTwo(b);
        EndDecodes(b[0], b[1]);
      } else {
        ShortOne(b);
        EndDecodes(b[0], 0);
      }
    }
  }

  /** What the encoder writes, the decoder reads back. */
  lemma RoundTrip(b: seq<Byte>)
    ensures Decode(Encode(b), 0, 0) == b
  {
    EncodeIsShort(b);
    ShortDecodes(b);
  }
}

/** Reading a passkey's public key out of WebAuthn authenticator data. */
module AuthData {
  import opened Common
  import opened Bytes
  import opened Cbor
  import Base64Url

  /** Conversion of a 64-bit unsigned number to a signed one. */
  function ToI64(u: nat): (i: int)
    ensures -0x8000_0000_0000_0000 <= i < 0x8000_0000_0000_0000 && (u - i) % 0x1_0000_0000_0000_0000 == 0
  {
    if u % U64 < U64 / 2 then u % U64 else u % U64 - U64
  }

  function AsInt(v: Val): int {
    match v
    case Uint(u) => ToI64(u)
    case Nint(u) => -1 - ToI64(u)
    case _ => 0
  }

  predicate KeyIs(k: Val, key: int) {
    (k.Uint? || k.Nint?) && AsInt(k) == key
  }

  /** The value of the first entry with an integer key. */
  function GetInt(items: seq<Val>, key: int): Option<Val> {
    if |items| < 2 then None
    else if KeyIs(items[0], key) then Some(items[1])
    else GetInt(items[2..], key)
  }

  method Get(v: Val, key: int) returns (r: Option<Val>)
    ensures r == if v.Map? then GetInt(v.items, key) else None
  {
    if !v.Map? {
      return None;
    }
    var i := 0;
    assert v.items[0..] == v.items;
    while i + 1 < |v.items|
      invariant 0 <= i <= |v.items|
      invariant GetInt(v.items, key) == GetInt(v.items[i..], key)
    {
      assert v.items[i..][2..] == v.items[i + 2..];
      if KeyIs(v.items[i], key) {
        return Some(v.items[i + 1]);
      }
      i := i + 2;
    }
    r := None;
  }

  /** A COSE key for ES256 on P-256 with coordinates x and y. */
  predicate CoseKey(v: Val, x: seq<Byte>, y: seq<Byte>) {
    && v.Map? && |x| == 32 && |y| == 32
    && GetInt(v.items, 1) == Some(Uint(2))
    && GetInt(v.items, 3).Some? && AsInt(GetInt(v.items, 3).value) == -7
    && GetInt(v.items, -1) == Some(Uint(1))
    && GetInt(v.items, -2) == Some(ByteString(x))
    && GetInt(v.items, -3) == Some(ByteString(y))
  }

  /** data starts with the encoding of a COSE key. */
  ghost predicate StartsWithKey(data: seq<Byte>, x: seq<Byte>, y: seq<Byte>) {
    exists item, rest :: Valid(item, 0) && data == Encode(item, 0) + rest && CoseKey(Meaning(item), x, y)
  }

  lemma KeyParsed(data: seq<Byte>, x: seq<Byte>, y: seq<Byte>)
    ensures StartsWithKey(data, x, y) <==> ParseItem(data, 0).Parsed? && CoseKey(Meaning(ParseItem(data, 0).item), x, y)
  {
    if item, rest :| Valid(item, 0) && data == Encode(item, 0) + rest && CoseKey(Meaning(item), x, y) {
      ParseEncode(item, 0, rest);
    }
    if ParseItem(data, 0).Parsed? {
      ParseSound(data, 0);
    }
  }

  method ExtractCoseP256(data: seq<Byte>) returns (ok: bool, x: seq<Byte>, y: seq<Byte>)
    ensures ok ==> StartsWithKey(data, x, y)
    ensures !ok ==> forall a, b :: !StartsWithKey(data, a, b)
  {
    hide ParseItem, Valid, Encode, Meaning, GetInt;
    x, y := [], [];
    forall a, b
      ensures StartsWithKey(data, a, b)
         <==> ParseItem(data, 0).Parsed? && CoseKey(Meaning(ParseItem(data, 0).item), a, b)
    {
      KeyParsed(data, a, b);
    }
    hide StartsWithKey;
    var pos, v;
    ok, pos, v := Parse(data, 0, 0);
    assert data[0..] == data;
    if !ok || !v.Map? {
      return false, x, y;
    }
    var kty := Get(v, 1);
    if kty.None? || !kty.value.Uint? || kty.value.u != 2 {
      return false, x, y;
    }
    var alg := Get(v, 3);
    if alg.None? || AsInt(alg.value) != -7 {
      return false, x, y;
    }
    var crv := Get(v, -1);
    if crv.None? || !crv.value.Uint? || crv.value.u != 1 {
      return false, x, y;
    }
    var xv := Get(v, -2);
    var yv := Get(v, -3);
    if xv.None? || !xv.value.ByteString? || |xv.value.bytes| != 32 {
      return false, x, y;
    }
    if yv.None? || !yv.value.ByteString? || |yv.value.bytes| != 32 {
      return false, x, y;
    }
    x, y := xv.value.bytes, yv.value.bytes;
  }

  datatype Outcome = Rejected | NoCredential(signCount: nat)
                   | Credential(credId: string, x: seq<Byte>, y: seq<Byte>, signCount: nat)

  /** 32 bytes of relying-party hash, flags, sign count, and then, if bit 6 is set,
      an authenticator id, a credential id with its length, and a COSE key. */
  function Assembled(hash: seq<Byte>, flags: Byte, signCount: nat, aaguid: seq<Byte>, credId: seq<Byte>,
                     tail: seq<Byte>): seq<Byte> {
    (hash + [flags] + BigEndian(signCount, 4)) + (aaguid + BigEndian(|credId|, 2) + credId + tail)
  }

  predicate UserPresent(flags: Byte) {
    flags % 2 == 1
  }

  predicate HasCredential(flags: Byte) {
    flags / 64 % 2 == 1
  }

  ghost predicate IsAssembled(a: seq<Byte>, hash: seq<Byte>, credId: seq<Byte>, x: seq<Byte>, y: seq<Byte>,
                              signCount: nat) {
    exists flags, aaguid, tail ::
      && UserPresent(flags) && HasCredential(flags) && |aaguid| == 16 && signCount < Pow256(4) && |credId| < Pow256(2)
      && a == Assembled(hash, flags, signCount, aaguid, credId, tail) && StartsWithKey(tail, x, y)
  }

  /** A number from its bytes, highest first. */
  function Number(s: seq<Byte>): nat {
    FromBigEndian(s)
  }

  lemma FrontParts(a: seq<Byte>, hash: seq<Byte>, flags: Byte, count: seq<Byte>, rest: seq<Byte>)
    requires |hash| == 32 && |count| == 4
    ensures a == (hash + [flags] + count) + rest
       <==> |a| >= 37 && a[..32] == hash && a[32] == flags && a[33..37] == count && a[37..] == rest
  {
    if |a| >= 37 && a[33..37] == count {
      assert a == a[..32] + [a[32]] + a[33..37] + a[37..];
    }
  }

  lemma BackParts(b: seq<Byte>, aaguid: seq<Byte>, size: seq<Byte>, credId: seq<Byte>, tail: seq<Byte>)
    requires |aaguid| == 16 && |size| == 2
    ensures b == aaguid + size + credId + tail
       <==> |b| >= 18 + |credId| && b[..16] == aaguid && b[16..18] == size
            && b[18..18 + |credId|] == credId && b[18 + |credId|..] == tail
  {
    var n := |credId|;
    if |b| >= 18 + n {
      assert b == b[..16] + b[16..18] + b[18..18 + n] + b[18 + n..];
    }
  }

  lemma Shifted(a: seq<Byte>, from: nat, i: nat, j: nat)
    requires from + i <= from + j <= |a|
    ensures a[from..][i..j] == a[from + i..from + j] && a[from..][j..] == a[from + j..]
  {
  }

  lemma NumberIs(s: seq<Byte>, n: nat)
    requires n < Pow256(|s|)
    ensures Number(s) == n <==> s == BigEndian(n, |s|)
  {
    BigEndianRoundTrip(n, |s|);
    BigEndianInverse(s);
  }

  predicate LaidOut(a: seq<Byte>, hash: seq<Byte>, flags: Byte, signCount: nat, aaguid: seq<Byte>, credId: seq<Byte>,
                    tail: seq<Byte>) {
    && |a| >= 55 + |credId| && a[..32] == hash && a[32] == flags && Number(a[33..37]) == signCount
    && a[37..53] == aaguid && Number(a[53..55]) == |credId| && a[55..55 + |credId|] == credId
        && a[55 + |credId|..] == tail
  }

  /** Where each part of authenticator data lies. */
  lemma Layout(a: seq<Byte>, hash: seq<Byte>, flags: Byte, signCount: nat, aaguid: seq<Byte>, credId: seq<Byte>,
               tail: seq<Byte>)
    requires |hash| == 32 && |aaguid| == 16 && signCount < Pow256(4) && |credId| < Pow256(2)
    ensures a == Assembled(hash, flags, signCount, aaguid, credId, tail)
            <==> LaidOut(a, hash, flags, signCount, aaguid, credId, tail)
  {
    hide Number, BigEndian, Pow256;
    var n := |credId|;
    var rest := aaguid + BigEndian(n, 2) + credId + tail;
    FrontParts(a, hash, flags, BigEndian(signCount, 4), rest);
    if |a| >= 55 + n {
      NumberIs(a[33..37], signCount);
      NumberIs(a[53..55], n);
      BackParts(a[37..], aaguid, BigEndian(n, 2), credId, tail);
      Shifted(a, 37, 0, 16);
      Shifted(a, 37, 16, 18);
      Shifted(a, 37, 18, 18 + n);
    } else {
      assert |rest| == 18 + |credId| + |tail|;
    }
  }

  method ParseAuthData(a: seq<Byte>, rpHash: seq<Byte>, expectAT: bool) returns (r: Outcome, ghost raw: seq<Byte>)
    requires |rpHash| == 32
    ensures r.Credential? ==> IsAssembled(a, rpHash, raw, r.x, r.y, r.signCount) && r.credId == Base64Url.Encode(raw)
    ensures !r.Credential? ==> forall credId, x, y, n: nat :: !IsAssembled(a, rpHash, credId, x, y, n)
    ensures r.NoCredential?
       <==> !expectAT && |a| >= 37 && a[..32] == rpHash && UserPresent(a[32]) && !HasCredential(a[32])
    ensures r.NoCredential? ==> r.signCount == Number(a[33..37])
  {
    hide StartsWithKey, Number, Pow256, BigEndian, Base64Url.Encode;
    raw := [];
    forall credId, x, y, n: nat | IsAssembled(a, rpHash, credId, x, y, n)
      ensures |a| >= 55 && a[..32] == rpHash && UserPresent(a[32]) && HasCredential(a[32])
              && 55 + Number(a[53..55]) <= |a| && StartsWithKey(a[55 + Number(a[53..55])..], x, y)
    {
      var flags, aaguid, tail :| UserPresent(flags) && HasCredential(flags) && |aaguid| == 16 && n < Pow256(4)
          && |credId| < Pow256(2)
        && a == Assembled(rpHash, flags, n, aaguid, credId, tail) && StartsWithKey(tail, x, y);
      Layout(a, rpHash, flags, n, aaguid, credId, tail);
    }
    hide IsAssembled;
    if |a| < 37 || a[..32] != rpHash {
      return Rejected, raw;
    }
    var flags := a[32];
    if flags % 2 != 1 {
      return Rejected, raw;
    }
    var signCount := ReadNumber(a[33..37]);
    if flags / 64 % 2 != 1 {
      return if expectAT then Rejected else NoCredential(signCount), raw;
    }
    if |a| < 37 + 16 + 2 {
      return Rejected, raw;
    }
    var n := ReadNumber(a[53..55]);
    if |a| < 55 + n {
      return Rejected, raw;
    }
    var credId := Base64Url.ToBase64url(a[55..55 + n]);
    var ok, x, y := ExtractCoseP256(a[55 + n..]);
    if !ok {
      return Rejected, raw;
    }
    raw := a[55..55 + n];
    r := Credential(credId, x, y, signCount);
    Reassemble(a, rpHash, x, y);
  }

  method ReadNumber(s: seq<Byte>) returns (n: nat)
    ensures n == Number(s)
  {
    n := 0;
    for i := 0 to |s|
      invariant n == Number(s[..i])
    {
      assert s[..i + 1][..i] == s[..i];
      n := 256 * n + s[i] as int;
    }
    assert s[..|s|] == s;
  }

  lemma Reassemble(a: seq<Byte>, rpHash: seq<Byte>, x: seq<Byte>, y: seq<Byte>)
    requires |rpHash| == 32 && |a| >= 55 && a[..32] == rpHash && UserPresent(a[32]) && HasCredential(a[32])
    requires 55 + Number(a[53..55]) <= |a| && StartsWithKey(a[55 + Number(a[53..55])..], x, y)
    ensures IsAssembled(a, rpHash, a[55..55 + Number(a[53..55])], x, y, Number(a[33..37]))
  {
    var n := Number(a[53..55]);
    FromBigEndianBound(a[33..37]);
    FromBigEndianBound(a[53..55]);
    Layout(a, rpHash, a[32], Number(a[33..37]), a[37..53], a[55..55 + n], a[55 + n..]);
  }

  /** The bytes determine the credential id, the coordinates and the count. */
  lemma AssembledOnce(a: seq<Byte>, hash: seq<Byte>, c1: seq<Byte>, x1: seq<Byte>, y1: seq<Byte>, n1: nat,
                      c2: seq<Byte>, x2: seq<Byte>, y2: seq<Byte>, n2: nat)
    requires |hash| == 32 && IsAssembled(a, hash, c1, x1, y1, n1) && IsAssembled(a, hash, c2, x2, y2, n2)
    ensures c1 == c2 && x1 == x2 && y1 == y2 && n1 == n2
  {
    hide StartsWithKey, Number, Pow256, Assembled, Cbor.ParseItem, Cbor.Meaning, GetInt;
    var f1, g1, t1 := Unassemble(a, hash, c1, x1, y1, n1);
    var f2, g2, t2 := Unassemble(a, hash, c2, x2, y2, n2);
    KeyParsed(t1, x1, y1);
    KeyParsed(t2, x2, y2);
  }

  lemma Unassemble(a: seq<Byte>, hash: seq<Byte>, credId: seq<Byte>, x: seq<Byte>, y: seq<Byte>, n: nat)
    returns (flags: Byte, aaguid: seq<Byte>, tail: seq<Byte>)
    requires |hash| == 32 && IsAssembled(a, hash, credId, x, y, n)
    ensures LaidOut(a, hash, flags, n, aaguid, credId, tail) && StartsWithKey(tail, x, y)
  {
    hide StartsWithKey, Number, Pow256, Assembled;
    flags, aaguid, tail :| UserPresent(flags) && HasCredential(flags) && |aaguid| == 16 && n < Pow256(4)
        && |credId| < Pow256(2)
      && a == Assembled(hash, flags, n, aaguid, credId, tail) && StartsWithKey(tail, x, y);
    Layout(a, hash, flags, n, aaguid, credId, tail);
  }

  // ----- a key as authenticators write it ---------------------------------------------------

  /** {1: 2, 3: -7, -1: 1, -2: x, -3: y} with the shortest heads. */
  function StandardKey(x: seq<Byte>, y: seq<Byte>): Item {
    MapItem(0, [UintItem(0, 1), UintItem(0, 2), UintItem(0, 3), NintItem(0, 6), NintItem(0, 0), UintItem(0, 1),
                NintItem(0, 1), BytesItem(1, x), NintItem(0, 2), BytesItem(1, y)])
  }

  lemma ValidCons(items: seq<Item>, depth: nat)
    requires forall i | 0 <= i < |items| :: Valid(items[i], depth)
    ensures AllValid(items, depth)
    decreases |items|
  {
    if items != [] {
      ValidCons(items[1..], depth);
    }
  }

  lemma MeaningsAt(items: seq<Item>, i: nat)
    requires i < |items|
    ensures Meanings(items)[i] == Meaning(items[i])
    decreases |items|
  {
    if i > 0 {
      MeaningsAt(items[1..], i - 1);
    }
  }

  lemma Skip(items: seq<Val>, n: nat, key: int)
    requires 2 * n <= |items| && forall i | 0 <= i < n :: !KeyIs(items[2 * i], key)
    ensures GetInt(items, key) == GetInt(items[2 * n..], key)
    decreases n
  {
    if n > 0 {
      assert forall i | 0 <= i < n - 1 :: items[2..][2 * i] == items[2 * (i + 1)];
      assert !KeyIs(items[2 * 0], key);
      Skip(items[2..], n - 1, key);
      assert items[2..][2 * (n - 1)..] == items[2 * n..];
    } else {
      assert items[0..] == items;
    }
  }

  lemma StandardKeyValid(x: seq<Byte>, y: seq<Byte>)
    requires |x| == 32 && |y| == 32
    ensures Valid(StandardKey(x, y), 0)
  {
    assert Pow256(1) == 256;
    ValidCons(StandardKey(x, y).items, 1);
  }

  /** The standard key is within the parser's limits and is a key with those coordinates. */
  lemma StandardKeyReads(x: seq<Byte>, y: seq<Byte>)
    requires |x| == 32 && |y| == 32
    ensures Valid(StandardKey(x, y), 0) && CoseKey(Meaning(StandardKey(x, y)), x, y)
  {
    StandardKeyValid(x, y);
    hide GetInt, Meanings, Valid, AllValid;
    var items := StandardKey(x, y).items;
    var v := Meanings(items);
    forall i | 0 <= i < 10 ensures v[i] == Meaning(items[i]) {
      MeaningsAt(items, i);
    }
    assert v == [Uint(1), Uint(2), Uint(3), Nint(6), Nint(0), Uint(1), Nint(1), ByteString(x), Nint(2), ByteString(y)];
    KeysFound(x, y);
  }

  lemma KeysFound(x: seq<Byte>, y: seq<Byte>)
    ensures var v := [Uint(1), Uint(2), Uint(3), Nint(6), Nint(0), Uint(1), Nint(1), ByteString(x), Nint(2),
                      ByteString(y)];
            GetInt(v, 1) == Some(v[1]) && GetInt(v, 3) == Some(v[3]) && GetInt(v, -1) == Some(v[5])
            && GetInt(v, -2) == Some(v[7]) && GetInt(v, -3) == Some(v[9])
  {
    hide GetInt;
    var v := [Uint(1), Uint(2), Uint(3), Nint(6), Nint(0), Uint(1), Nint(1), ByteString(x), Nint(2), ByteString(y)];
    Here(v, 0, 1);
    Here(v, 1, 3);
    Here(v, 2, -1);
    Here(v, 3, -2);
    Here(v, 4, -3);
  }

  lemma Here(items: seq<Val>, n: nat, key: int)
    requires 2 * n + 1 < |items| && KeyIs(items[2 * n], key) && forall i | 0 <= i < n :: !KeyIs(items[2 * i], key)
    ensures GetInt(items, key) == Some(items[2 * n + 1])
  {
    Skip(items, n, key);
  }

  /** Authenticator data put together around a standard key, with or without
      extension data behind it, is what ParseAuthData accepts. */
  lemma StandardAssembled(hash: seq<Byte>, flags: Byte, signCount: nat, aaguid: seq<Byte>, credId: seq<Byte>,
                          x: seq<Byte>, y: seq<Byte>, extensions: seq<Byte>)
    requires |aaguid| == 16 && signCount < Pow256(4) && |credId| < Pow256(2) && |x| == 32 && |y| == 32
    requires UserPresent(flags) && HasCredential(flags) && Valid(StandardKey(x, y), 0)
    ensures IsAssembled(Assembled(hash, flags, signCount, aaguid, credId, Encode(StandardKey(x, y), 0) + extensions),
                        hash, credId, x, y, signCount)
  {
    StandardKeyReads(x, y);
    hide Valid, Encode, CoseKey, Meaning, Assembled, StandardKey, Pow256;
    var tail := Encode(StandardKey(x, y), 0) + extensions;
    assert StartsWithKey(tail, x, y);
  }
}
