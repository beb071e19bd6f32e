/** Bytes, big-endian numbers and the masking operation. */
module Bytes {
  type Byte = x: int | 0 <= x < 256

  function BigEndian(n: nat, k: nat): (s: seq<Byte>)
    ensures |s| == k
  {
    if k == 0 then [] else BigEndian(n / 256, k - 1) + [n % 256]
  }

  function FromBigEndian(s: seq<Byte>): nat {
    if s == [] then 0 else FromBigEndian(s[..|s| - 1]) * 256 + s[|s| - 1]
  }

  function Pow256(k: nat): nat {
    if k == 0 then 1 else 256 * Pow256(k - 1)
  }

  lemma {:induction false} FromBigEndianBound(s: seq<Byte>)
    ensures FromBigEndian(s) < Pow256(|s|)
  {
    if s == [] {
    } else {
      FromBigEndianBound(s[..|s| - 1]);
    }
  }

  lemma {:induction false} BigEndianRoundTrip(n: nat, k: nat)
    requires n < Pow256(k)
    ensures FromBigEndian(BigEndian(n, k)) == n
  {
    if k == 0 {
    } else {
      BigEndianRoundTrip(n / 256, k - 1);
    }
  }

  /** n >> 8 * i */
  function Shift(n: nat, i: nat): nat {
    if i == 0 then n else Shift(n, i - 1) / 256
  }

  function Pow2(k: nat): nat {
    if k == 0 then 1 else 2 * Pow2(k - 1)
  }

  /** Exclusive or of the k lowest bits. */
  function XorBits(a: nat, b: nat, k: nat): (x: nat)
    ensures x < Pow2(k)
  {
    if k == 0 then 0 else 2 * XorBits(a / 2, b / 2, k - 1) + (a % 2 + b % 2) % 2
  }

  lemma BitTwice(x: nat, y: nat)
    requires x < 2 && y < 2
    ensures ((x + y) % 2 + y) % 2 == x
  {
  }

  /** Exclusive or, the lowest bit and the others apart. */
  lemma XorStep(a: nat, b: nat, k: nat)
    requires k > 0
    ensures XorBits(a, b, k) / 2 == XorBits(a / 2, b / 2, k - 1)
    ensures XorBits(a, b, k) % 2 == (a % 2 + b % 2) % 2
    ensures a < Pow2(k) ==> a / 2 < Pow2(k - 1)
  {
  }

  lemma SameBits(a: nat, b: nat)
    requires a / 2 == b / 2 && a % 2 == b % 2
    ensures a == b
  {
  }

  lemma {:induction false} XorBitsTwice(a: nat, b: nat, k: nat)
    requires a < Pow2(k)
    ensures XorBits(XorBits(a, b, k), b, k) == a
  {
    if k == 0 {
    } else {
      hide XorBits, Pow2;
      var x := XorBits(a, b, k);
      XorStep(a, b, k);
      XorStep(x, b, k);
      XorBitsTwice(a / 2, b / 2, k - 1);
      BitTwice(a % 2, b % 2);
      SameBits(XorBits(x, b, k), a);
    }
  }

  function Xor(a: Byte, b: Byte): Byte {
    assert Pow2(8) == 2 * Pow2(7) == 4 * Pow2(6) == 8 * Pow2(5) == 16 * Pow2(4) == 256;
    XorBits(a, b, 8)
  }

  function Bit(n: nat, i: nat): nat {
    if i == 0 then n % 2 else Bit(n / 2, i - 1)
  }

  lemma {:induction false} XorBitsBit(a: nat, b: nat, k: nat, i: nat)
    requires i < k
    ensures Bit(XorBits(a, b, k), i) == (Bit(a, i) + Bit(b, i)) % 2
  {
    XorStep(a, b, k);
    if i == 0 {
    } else {
      hide XorBits;
      XorBitsBit(a / 2, b / 2, k - 1, i - 1);
    }
  }

  /** Exclusive or, bit by bit. */
  lemma XorBit(a: Byte, b: Byte, i: nat)
    requires i < 8
    ensures Bit(Xor(a, b), i) == (Bit(a, i) + Bit(b, i)) % 2
  {
    XorBitsBit(a, b, 8, i);
  }

  lemma {:induction false} ZeroBits(b: nat, k: nat)
    requires b < Pow2(k)
    ensures XorBits(0, b, k) == b
  {
    if k == 0 {
    } else {
      ZeroBits(b / 2, k - 1);
    }
  }

  lemma XorTwice(a: Byte, b: Byte)
    ensures Xor(Xor(a, b), b) == a
  {
    assert Pow2(8) == 2 * Pow2(7) == 4 * Pow2(6) == 8 * Pow2(5) == 16 * Pow2(4) == 256;
    XorBitsTwice(a, b, 8);
  }
}

/** WebSocket frames, RFC 6455 sections 5.2 and 5.3. */
module WsFraming {
  import opened Common
  import opened Bytes

  const CONTINUATION: Byte := 0
  const BINARY: Byte := 2
  const CLOSE: Byte := 8
  const PING: Byte := 9
  const PONG: Byte := 10
  const FIN: Byte := 128

  type Key = k: seq<Byte> | |k| == 4 witness [0, 0, 0, 0]

  /** The second byte of a frame and its extended length. */
  function LengthField(masked: bool, n: nat): seq<Byte>
    requires n < U64
  {
    var bit := if masked then 128 else 0;
    if n < 126 then [bit + n]
    else if n <= 0xFFFF then [bit + 126] + BigEndian(n, 2)
    else [bit + 127] + BigEndian(n, 8)
  }

  function Mask(payload: seq<Byte>, key: Key): (m: seq<Byte>)
    ensures |m| == |payload|
  {
    seq(|payload|, i requires 0 <= i < |payload| => Xor(payload[i], key[i % 4]))
  }

  function ServerFrame(opcode: Byte, payload: seq<Byte>): seq<Byte>
    requires opcode < 16 && |payload| < U64
  {
    [0x80 + opcode] + LengthField(false, |payload|) + payload
  }

  function ClientFrame(opcode: Byte, payload: seq<Byte>, key: Key): seq<Byte>
    requires opcode < 16 && |payload| < U64
  {
    [0x80 + opcode] + LengthField(true, |payload|) + key + Mask(payload, key)
  }

  lemma MaskTwice(payload: seq<Byte>, key: Key)
    ensures Mask(Mask(payload, key), key) == payload
  {
    forall i | 0 <= i < |payload| ensures Mask(Mask(payload, key), key)[i] == payload[i] {
      XorTwice(payload[i], key[i % 4]);
    }
  }

  /** Zeros are masked to the key, again and again from its first byte. */
  lemma ZerosMasked(zeros: seq<Byte>, key: Key, i: nat)
    requires i < |zeros| && forall j | 0 <= j < |zeros| :: zeros[j] == 0
    ensures Mask(zeros, key)[i] == if i % 4 == 0 then key[0] else if i % 4 == 1 then key[1]
                                   else if i % 4 == 2 then key[2] else key[3]
  {
    assert Pow2(8) == 256 by { assert Pow2(4) == 16; }
    ZeroBits(key[i % 4], 8);
  }

  lemma BigEndianExamples()
    ensures BigEndian(256, 2) == [1, 0] && BigEndian(65536, 8) == [0, 0, 0, 0, 0, 1, 0, 0]
  {
  }

  /** The frames of RFC 6455 section 5.7: a ping, a masked pong, and the two long length forms. */
  lemma RfcControlFrames(hello: seq<Byte>, key: Key)
    requires hello == [0x48, 0x65, 0x6C, 0x6C, 0x6F] && key == [0x37, 0xFA, 0x21, 0x3D]
    ensures ServerFrame(9, hello) == [0x89, 0x05, 0x48, 0x65, 0x6C, 0x6C, 0x6F]
    ensures ClientFrame(10, hello, key) == [0x8A, 0x85, 0x37, 0xFA, 0x21, 0x3D] + Mask(hello, key)
  {
    hide Mask;
  }

  lemma RfcLongFrames(medium: seq<Byte>, long: seq<Byte>)
    requires |medium| == 256 && |long| == 65536
    ensures ServerFrame(2, medium) == [0x82, 0x7E, 0x01, 0x00] + medium
    ensures ServerFrame(2, long) == [0x82, 0x7F, 0x00, 0x00, 0x00, 0x00, 0x00, 0x01, 0x00, 0x00] + long
  {
    BigEndianExamples();
    hide BigEndian;
  }

  // ----- frame heads -------------------------------------------------------------

  datatype Head = Short | Head(opcode: Byte, masked: bool, len: nat, size: nat)

  function ExtSize(len7: nat): nat {
    if len7 == 126 then 2 else if len7 == 127 then 8 else 0
  }

  /** Reads opcode, mask bit and length from the front of a byte stream. */
  function ReadHead(s: seq<Byte>): (h: Head)
    ensures h.Head? ==> 2 <= h.size <= |s|
  {
    if |s| < 2 || |s| < 2 + ExtSize(s[1] % 128) then Short else
      var len7, size := s[1] % 128, 2 + ExtSize(s[1] % 128);
      Head(s[0] % 16, s[1] >= 128, if len7 < 126 then len7 else FromBigEndian(s[2..size]), size)
  }

  lemma HeadParts(a: Byte, b: Byte, ext: seq<Byte>, rest: seq<Byte>)
    ensures var s := [a, b] + ext + rest; |s| >= 2 + |ext| && s[0] == a && s[1] == b && s[2..2 + |ext|] == ext
  {
  }

  lemma HeadOfFrame(opcode: Byte, masked: bool, n: nat, rest: seq<Byte>)
    requires opcode < 16 && n < U64
    ensures ReadHead([FIN + opcode] + LengthField(masked, n) + rest)
         == Head(opcode, masked, n, 1 + |LengthField(masked, n)|)
  {
    hide BigEndian, FromBigEndian;
    var bit := if masked then 128 else 0;
    var (code, ext) := if n < 126 then (n, [])
                       else if n <= 0xFFFF then (126, BigEndian(n, 2))
                       else (127, BigEndian(n, 8));
    assert [FIN + opcode] + LengthField(masked, n) + rest == [FIN + opcode, bit + code] + ext + rest;
    HeadParts(FIN + opcode, bit + code, ext, rest);
    if n >= 126 {
      Pow256Values();
      hide Pow256;
      BigEndianRoundTrip(n, |ext|);
    }
  }

  lemma Pow256Values()
    ensures Pow256(2) == 0x10000 && Pow256(8) == U64
  {
    assert Pow256(4) == 0x1_0000_0000;
  }

  // ----- writing frames ------------------------------------------------------------

  /** The eight length bytes, most significant first. */
  method PushLength64(frame: seq<Byte>, n: nat) returns (r: seq<Byte>)
    ensures r == frame + BigEndian(n, 8)
  {
    r := frame;
    var i := 7;
    while i >= 0
      invariant -1 <= i <= 7
      invariant r == frame + BigEndian(Shift(n, i + 1), 7 - i)
    {
      r := r + [Shift(n, i) % 256];
      i := i - 1;
    }
  }

  method BuildClientFrame(payload: seq<Byte>, key: Key) returns (frame: seq<Byte>)
    requires |payload| < U64
    ensures frame == ClientFrame(2, payload, key)
  {
    var n := |payload|;
    frame := [FIN + BINARY];
    if n < 126 {
      frame := frame + [128 + n];
    } else if n <= 0xFFFF {
      frame := frame + [128 + 126] + [n / 256 % 256] + [n % 256];
      assert BigEndian(n, 2) == [n / 256 % 256] + [n % 256];
    } else {
      frame := PushLength64(frame + [128 + 127], n);
    }
    frame := frame + [key[0]] + [key[1]] + [key[2]] + [key[3]];
    ghost var head := frame;
    assert head == [FIN + BINARY] + LengthField(true, n) + key;
    for i := 0 to n
      invariant frame == head + Mask(payload, key)[..i]
    {
      frame := frame + [Xor(payload[i], key[i % 4])];
    }
  }

  method WriteFrame(src: seq<Byte>) returns (wire: seq<Byte>)
    requires |src| < U64
    ensures wire == ServerFrame(2, src)
  {
    var n := |src|;
    wire := [FIN + BINARY];
    if n < 126 {
      wire := wire + [n];
    } else if n <= 0xFFFF {
      wire := wire + [126] + [n / 256 % 256] + [n % 256];
      assert BigEndian(n, 2) == [n / 256 % 256] + [n % 256];
    } else {
      wire := PushLength64(wire + [127], n);
    }
    if n != 0 {
      wire := wire + src;
    }
  }
}
