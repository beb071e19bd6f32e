/** The strict base64 decoder of the trust documents (RFC 4648 section 4 with one
    encoding per value). */
module StrictBase64 {
  import opened Bytes

  // ----- the alphabet ----------------------------------------------------------------

  function Val(c: char): (v: int)
    ensures -1 <= v < 64
  {
    if 'A' <= c <= 'Z' then c as int - 'A' as int
    else if 'a' <= c <= 'z' then c as int - 'a' as int + 26
    else if '0' <= c <= '9' then c as int - '0' as int + 52
    else if c == '+' then 62
    else if c == '/' then 63
    else -1
  }

  function Sym(v: int): (c: char)
    requires 0 <= v < 64
  {
    if v < 26 then ('A' as int + v) as char
    else if v < 52 then ('a' as int + v - 26) as char
    else if v < 62 then ('0' as int + v - 52) as char
    else if v == 62 then '+'
    else '/'
  }

  lemma SymVal(v: int)
    requires 0 <= v < 64
    ensures Val(Sym(v)) == v && Sym(v) != '='
  {
  }

  lemma ValSym(c: char)
    requires Val(c) >= 0
    ensures Sym(Val(c)) == c
  {
  }

  // ----- the canonical encoding: the reference --------------------------------------------

  function Quad(x: Byte, y: Byte, z: Byte): string {
    [Sym(x / 4), Sym(x % 4 * 16 + y / 16), Sym(y % 16 * 4 + z / 64), Sym(z % 64)]
  }

  function Encode(b: seq<Byte>): (s: string)
    ensures |s| % 4 == 0 && (s == "" <==> b == [])
  {
    if b == [] then ""
    else if |b| == 1 then Quad(b[0], 0, 0)[..2] + "=="
    else if |b| == 2 then Quad(b[0], b[1], 0)[..3] + "="
    else Quad(b[0], b[1], b[2]) + Encode(b[3..])
  }

  // ----- decoding ----------------------------------------------------------------------------

  datatype Piece = Bad | Piece(bytes: seq<Byte>)

  /** The bytes that four 6-bit values carry when the last pad of them are padding;
      unused bits must be zero. */
  function Unpack(v0: int, v1: int, v2: int, v3: int, pad: nat): Piece
    requires 0 <= v0 < 64 && 0 <= v1 < 64 && 0 <= v2 < 64 && 0 <= v3 < 64
  {
    var n := v0 * 262144 + v1 * 4096 + v2 * 64 + v3;
    if pad == 2 then (if n % 65536 != 0 then Bad else Piece([n / 65536]))
    else if pad == 1 then (if n % 256 != 0 then Bad else Piece([n / 65536, n / 256 % 256]))
    else Piece([n / 65536, n / 256 % 256, n % 256])
  }

  /** Value of the j-th symbol of a group whose last pad symbols may be '='. */
  function ValAt(s: string, j: nat, pad: nat): (v: int)
    requires j < 4 == |s|
    ensures -1 <= v < 64
  {
    if s[j] == '=' then (if j >= 4 - pad then 0 else -1) else Val(s[j])
  }

  function Group(s: string, pad: nat): Piece
    requires |s| == 4
  {
    if ValAt(s, 0, pad) < 0 || ValAt(s, 1, pad) < 0 || ValAt(s, 2, pad) < 0 || ValAt(s, 3, pad) < 0 then Bad
    else Unpack(ValAt(s, 0, pad), ValAt(s, 1, pad), ValAt(s, 2, pad), ValAt(s, 3, pad), pad)
  }

  function PadOf(s: string): nat
    requires |s| >= 2
  {
    (if s[|s| - 1] == '=' then 1 else 0) + (if s[|s| - 2] == '=' then 1 else 0)
  }

  /** Decoding the groups of s, of which the last may be padded. */
  function Decode(s: string, pad: nat): Piece
    requires |s| % 4 == 0 && pad <= 2
    decreases |s|
  {
    if s == "" then Piece([])
    else if |s| == 4 then Group(s, pad)
    else
      var first := Group(s[..4], 0);
      if first.Bad? then Bad else
      Joined(first.bytes, Decode(s[4..], pad))
  }

  /** One group; pad is 0 for all groups but the last. */
  method DecodeGroup(s: string, pad: nat) returns (ok: bool, bytes: seq<Byte>)
    requires |s| == 4 && pad <= 2
    ensures if ok then Group(s, pad) == Piece(bytes) else Group(s, pad).Bad?
  {
    hide Unpack, Val;
    bytes := [];
    var v: seq<int> := [];
    for j := 0 to 4
      invariant |v| == j
      invariant forall k | 0 <= k < j :: v[k] >= 0 && v[k] == ValAt(s, k, pad)
    {
      var c := s[j];
      if c == '=' {
        if j < 4 - pad {
          return false, bytes;
        }
        v := v + [0];
      } else {
        if Val(c) < 0 {
          return false, bytes;
        }
        v := v + [Val(c)];
      }
    }
    ok, bytes := PushBytes(v, pad);
  }

  method PushBytes(v: seq<int>, pad: nat) returns (ok: bool, bytes: seq<Byte>)
    requires |v| == 4 && pad <= 2 && forall k | 0 <= k < 4 :: 0 <= v[k] < 64
    ensures if ok then Unpack(v[0], v[1], v[2], v[3], pad) == Piece(bytes) else Unpack(v[0], v[1], v[2], v[3], pad).Bad?
  {
    var n := v[0] * 262144 + v[1] * 4096 + v[2] * 64 + v[3];
    bytes := [n / 65536];
    if pad != 2 {
      bytes := bytes + [n / 256 % 256];
    }
    if pad == 0 {
      bytes := bytes + [n % 256];
    }
    ok := !(pad == 2 && n % 65536 != 0) && !(pad == 1 && n % 256 != 0);
  }

  method B64Decode(input: string) returns (ok: bool, out: seq<Byte>)
    ensures ok ==> out != [] && Encode(out) == input
    ensures !ok ==> forall b | b != [] :: Encode(b) != input
  {
    hide Encode, Group, Decode;
    out := [];
    if input == "" || |input| % 4 != 0 {
      Whole(input);
      return false, out;
    }
    var pad := PadOf(input);
    Canonical(input);
    var i := 0;
    assert input[0..] == input;
    while i < |input|
      invariant 0 <= i <= |input| && i % 4 == 0
      invariant i < |input| ==> Decode(input, pad) == Joined(out, Decode(input[i..], pad))
      invariant i == |input| ==> Decode(input, pad) == Piece(out)
    {
      DecodeFrom(input, i, pad);
      var group, bytes := DecodeGroup(input[i..i + 4], if i + 4 == |input| then pad else 0);
      if !group {
        return false, out;
      }
      JoinAssoc(out, bytes, Decode(input[i + 4..], pad));
      out, i := out + bytes, i + 4;
    }
    ok := true;
  }

  lemma Whole(s: string)
    requires s == "" || |s| % 4 != 0
    ensures forall b | b != [] :: Encode(b) != s
  {
  }

  function Joined(a: seq<Byte>, p: Piece): Piece {
    if p.Bad? then Bad else Piece(a + p.bytes)
  }

  lemma JoinAssoc(a: seq<Byte>, b: seq<Byte>, p: Piece)
    ensures Joined(a, Joined(b, p)) == Joined(a + b, p)
  {
    if p.Piece? {
      assert a + (b + p.bytes) == (a + b) + p.bytes;
    }
  }

  lemma DecodeFrom(s: string, i: nat, pad: nat)
    requires |s| % 4 == 0 && i % 4 == 0 && i < |s| && pad <= 2
    ensures i + 4 <= |s|
    ensures Decode(s[i..], pad)
         == if i + 4 == |s| then Group(s[i..i + 4], pad)
            else if Group(s[i..i + 4], 0).Bad? then Bad
            else Joined(Group(s[i..i + 4], 0).bytes, Decode(s[i + 4..], pad))
  {
    assert s[i..][..4] == s[i..i + 4] && s[i..][4..] == s[i + 4..];
  }

  // ----- decoding is the inverse of encoding -------------------------------------------------------

  lemma PackUnpack(x: Byte, y: Byte, z: Byte)
    ensures Unpack(x / 4, x % 4 * 16 + y / 16, y % 16 * 4 + z / 64, z % 64, 0) == Piece([x, y, z])
  {
    Packed(x, y, z);
    ThreeBytes(x * 65536 + y * 256 + z, x, y, z);
  }

  lemma PackUnpackShort(x: Byte, y: Byte)
    ensures Unpack(x / 4, x % 4 * 16, 0, 0, 2) == Piece([x])
    ensures Unpack(x / 4, x % 4 * 16 + y / 16, y % 16 * 4, 0, 1) == Piece([x, y])
  {
    Packed(x, 0, 0);
    Packed(x, y, 0);
    ThreeBytes(x * 65536, x, 0, 0);
    ThreeBytes(x * 65536 + y * 256, x, y, 0);
  }

  lemma Packed(x: Byte, y: Byte, z: Byte)
    ensures (x / 4) * 262144 + (x % 4 * 16 + y / 16) * 4096 + (y % 16 * 4 + z / 64) * 64 + z % 64
            == x * 65536 + y * 256 + z
  {
    assert x == 4 * (x / 4) + x % 4 && y == 16 * (y / 16) + y % 16 && z == 64 * (z / 64) + z % 64;
  }

  lemma ThreeBytes(n: int, x: Byte, y: Byte, z: Byte)
    requires n == x * 65536 + y * 256 + z
    ensures n / 65536 == x && n / 256 % 256 == y && n % 256 == z
    ensures n % 65536 == 0 <==> y == 0 && z == 0
  {
    assert n / 256 == x * 256 + y;
    assert n % 65536 == y * 256 + z;
  }

  lemma SixBits(v0: int, v1: int, v2: int, v3: int, x: Byte, y: Byte, z: Byte)
    requires 0 <= v0 < 64 && 0 <= v1 < 64 && 0 <= v2 < 64 && 0 <= v3 < 64
    requires x == v0 * 4 + v1 / 16 && y == v1 % 16 * 16 + v2 / 4 && z == v2 % 4 * 64 + v3
    ensures x / 4 == v0 && x % 4 * 16 + y / 16 == v1
    ensures y % 16 * 4 + z / 64 == v2 && z % 64 == v3
    ensures v0 * 262144 + v1 * 4096 + v2 * 64 + v3 == x * 65536 + y * 256 + z
  {
    assert v1 == v1 / 16 * 16 + v1 % 16 && v2 == v2 / 4 * 4 + v2 % 4;
    assert x % 4 == v1 / 16 && y / 16 == v1 % 16;
    assert y % 16 == v2 / 4 && z / 64 == v2 % 4;
  }

  lemma UnpackPack(v0: int, v1: int, v2: int, v3: int)
    requires 0 <= v0 < 64 && 0 <= v1 < 64 && 0 <= v2 < 64 && 0 <= v3 < 64
    ensures var n := v0 * 262144 + v1 * 4096 + v2 * 64 + v3;
            var x, y, z := n / 65536, n / 256 % 256, n % 256;
            && 0 <= x < 256
            && x / 4 == v0 && x % 4 * 16 + y / 16 == v1 && y % 16 * 4 + z / 64 == v2 && z % 64 == v3
            && (n % 65536 == 0 <==> y == 0 && z == 0)
  {
    var x, y, z := v0 * 4 + v1 / 16, v1 % 16 * 16 + v2 / 4, v2 % 4 * 64 + v3;
    SixBits(v0, v1, v2, v3, x, y, z);
    ThreeBytes(v0 * 262144 + v1 * 4096 + v2 * 64 + v3, x, y, z);
  }

  lemma GroupOfQuad(x: Byte, y: Byte, z: Byte)
    ensures Group(Quad(x, y, z), 0) == Piece([x, y, z])
    ensures Group(Quad(x, 0, 0)[..2] + "==", 2) == Piece([x])
    ensures Group(Quad(x, y, 0)[..3] + "=", 1) == Piece([x, y])
  {
    hide Unpack, Val, Sym;
    SymVal(x / 4);
    SymVal(x % 4 * 16 + y / 16);
    SymVal(x % 4 * 16);
    SymVal(y % 16 * 4 + z / 64);
    SymVal(y % 16 * 4);
    SymVal(z % 64);
    PackUnpack(x, y, z);
    PackUnpackShort(x, y);
  }

  lemma FullGroup(s: string)
    requires |s| == 4 && Group(s, 0).Piece?
    ensures var p := Group(s, 0).bytes; |p| == 3 && Quad(p[0], p[1], p[2]) == s
  {
    ValSym(s[0]);
    ValSym(s[1]);
    ValSym(s[2]);
    ValSym(s[3]);
    UnpackPack(Val(s[0]), Val(s[1]), Val(s[2]), Val(s[3]));
  }

  lemma OnePadded(s: string)
    requires |s| == 4 && s[3] == '=' && s[2] != '=' && Group(s, 1).Piece?
    ensures var p := Group(s, 1).bytes; |p| == 2 && Quad(p[0], p[1], 0)[..3] + "=" == s
  {
    ValSym(s[0]);
    ValSym(s[1]);
    ValSym(s[2]);
    UnpackPack(Val(s[0]), Val(s[1]), Val(s[2]), 0);
    hide Val, Sym;
  }

  lemma TwoPadded(s: string)
    requires |s| == 4 && s[3] == '=' && s[2] == '=' && Group(s, 2).Piece?
    ensures var p := Group(s, 2).bytes; |p| == 1 && Quad(p[0], 0, 0)[..2] + "==" == s
  {
    ValSym(s[0]);
    ValSym(s[1]);
    UnpackPack(Val(s[0]), Val(s[1]), 0, 0);
    hide Val, Sym;
  }

  lemma LastGroup(s: string)
    requires |s| == 4 && Group(s, PadOf(s)).Piece?
    ensures Encode(Group(s, PadOf(s)).bytes) == s && Group(s, PadOf(s)).bytes != []
  {
    PaddingAtEnd(s);
    hide Group, Quad;
    if PadOf(s) == 0 {
      FullGroup(s);
      assert Group(s, 0).bytes[3..] == [];
    } else if PadOf(s) == 1 {
      OnePadded(s);
    } else {
      TwoPadded(s);
    }
  }

  /** A lone padding symbol is the last one. */
  lemma PaddingAtEnd(s: string)
    requires |s| == 4 && Group(s, PadOf(s)).Piece?
    ensures PadOf(s) == 1 ==> s[3] == '=' && s[2] != '='
  {
    hide Unpack, Val;
  }

  lemma PadOfEncoded(b: seq<Byte>)
    requires 0 < |b| <= 3
    ensures |Encode(b)| == 4 && PadOf(Encode(b)) == 3 - |b|
  {
    var x, y, z := b[0], if |b| > 1 then b[1] else 0, if |b| > 2 then b[2] else 0;
    SymVal(y % 16 * 4 + z / 64);
    SymVal(y % 16 * 4);
    SymVal(z % 64);
    if |b| == 3 {
      assert b[3..] == [];
    }
  }

  lemma OneGroup(s: string, pad: nat)
    requires |s| == 4 && pad <= 2
    ensures Decode(s, pad) == Group(s, pad)
  {
    hide Group;
  }

  lemma ShortEncoding(b: seq<Byte>)
    requires 0 < |b| <= 3
    ensures Encode(b) == if |b| == 1 then Quad(b[0], 0, 0)[..2] + "=="
                         else if |b| == 2 then Quad(b[0], b[1], 0)[..3] + "="
                         else Quad(b[0], b[1], b[2])
    ensures b == if |b| == 1 then [b[0]] else if |b| == 2 then [b[0], b[1]] else [b[0], b[1], b[2]]
  {
    hide Quad;
    if |b| == 3 {
      assert b[3..] == [] && Encode(b) == Quad(b[0], b[1], b[2]) + "";
    }
  }

  lemma DecodeShortEncoding(b: seq<Byte>)
    requires 0 < |b| <= 3
    ensures |Encode(b)| == 4 && Decode(Encode(b), PadOf(Encode(b))) == Piece(b)
  {
    PadOfEncoded(b);
    GroupOfQuad(b[0], if |b| > 1 then b[1] else 0, if |b| > 2 then b[2] else 0);
    ShortEncoding(b);
    OneGroup(Encode(b), 3 - |b|);
    hide Group, PadOf, Quad, Encode, Decode;
  }

  lemma {:induction false} DecodeEncode(b: seq<Byte>)
    requires b != []
    ensures |Encode(b)| >= 4 && Decode(Encode(b), PadOf(Encode(b))) == Piece(b)
    decreases |b|
  {
    hide Group, Sym;
    if |b| <= 3 {
      DecodeShortEncoding(b);
    } else {
      DecodeEncode(b[3..]);
      GroupOfQuad(b[0], b[1], b[2]);
      var s := Encode(b);
      assert s[..4] == Quad(b[0], b[1], b[2]) && s[4..] == Encode(b[3..]);
      hide Quad, Encode;
      assert b == [b[0], b[1], b[2]] + b[3..];
    }
  }

  lemma {:induction false} EncodeDecode(s: string)
    requires |s| >= 4 && |s| % 4 == 0 && Decode(s, PadOf(s)).Piece?
    ensures Encode(Decode(s, PadOf(s)).bytes) == s && Decode(s, PadOf(s)).bytes != []
    decreases |s|
  {
    hide Group;
    var pad := PadOf(s);
    if |s| == 4 {
      LastGroup(s);
    } else {
      FullGroup(s[..4]);
      assert PadOf(s[4..]) == pad;
      EncodeDecode(s[4..]);
      var p, more := Group(s[..4], 0).bytes, Decode(s[4..], pad).bytes;
      assert (p + more)[3..] == more && s == s[..4] + s[4..];
    }
  }

  /** The decoder accepts exactly the canonical encodings, so no two strings decode
      to the same bytes. */
  lemma Canonical(s: string)
    requires |s| >= 4 && |s| % 4 == 0
    ensures forall b | b != [] :: Encode(b) == s <==> Decode(s, PadOf(s)) == Piece(b)
    ensures Decode(s, PadOf(s)).Piece? ==> Decode(s, PadOf(s)).bytes != []
  {
    if Decode(s, PadOf(s)).Piece? {
      EncodeDecode(s);
    }
    forall b | b != [] ensures Encode(b) == s <==> Decode(s, PadOf(s)) == Piece(b) {
      DecodeEncode(b);
    }
  }

  lemma EncodeInjective(a: seq<Byte>, b: seq<Byte>)
    requires a != [] && b != [] && Encode(a) == Encode(b)
    ensures a == b
  {
    DecodeEncode(a);
    DecodeEncode(b);
  }

  lemma {:induction false} EncodeAlphabet(b: seq<Byte>)
    ensures forall i | 0 <= i < |Encode(b)| :: Val(Encode(b)[i]) >= 0 || Encode(b)[i] == '='
    decreases |b|
  {
    if |b| >= 3 {
      EncodeAlphabet(b[3..]);
      assert forall v: int | 0 <= v < 64 :: Val(Sym(v)) == v;
    } else {
      assert forall v: int | 0 <= v < 64 :: Val(Sym(v)) == v;
    }
  }
}
