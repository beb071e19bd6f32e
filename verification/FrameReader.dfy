/** The client's byte-at-a-time parser of server frames, against a reference
    decoder that reads whole frames. */
module FrameReader {
  import opened Common
  import opened Bytes
  import opened WsFraming

  datatype State = Byte0 | Byte1 | ExtLen16Hi | ExtLen16Lo | ExtLen64 | Payload

  datatype Parser = Parser(state: State, opcode: Byte, payloadLen: nat, extLenBytesRead: nat, payloadBytesRead: nat)

  predicate IsData(opcode: Byte) {
    opcode == 2 || opcode == 0
  }

  // ----- the state machine as a function ------------------------------------------

  function AfterLength(p: Parser): Parser {
    p.(payloadBytesRead := 0, state := if p.payloadLen == 0 then Byte0 else Payload)
  }

  function Step(p: Parser, b: Byte): Parser {
    match p.state
    case Byte0 => p.(opcode := b % 16, state := Byte1)
    case Byte1 =>
      if b % 128 < 126 then AfterLength(p.(payloadLen := b % 128))
      else p.(payloadLen := 0, extLenBytesRead := 0, state := if b % 128 == 126 then ExtLen16Hi else ExtLen64)
    case ExtLen16Hi => p.(payloadLen := 256 * b, state := ExtLen16Lo)
    case ExtLen16Lo => AfterLength(p.(payloadLen := p.payloadLen + b))
    case ExtLen64 =>
      var q := p.(payloadLen := (256 * p.payloadLen + b) % U64, extLenBytesRead := p.extLenBytesRead + 1);
      if q.extLenBytesRead == 8 then AfterLength(q) else q
    case Payload =>
      p.(payloadBytesRead := p.payloadBytesRead + 1,
         state := if p.payloadBytesRead + 1 == p.payloadLen then Byte0 else Payload)
  }

  function Emit(p: Parser, b: Byte): seq<Byte> {
    if p.state == Payload && IsData(p.opcode) then [b] else []
  }

  function Run(p: Parser, s: seq<Byte>): Parser
    decreases |s|
  {
    if s == [] then p else Run(Step(p, s[0]), s[1..])
  }

  function Out(p: Parser, s: seq<Byte>): seq<Byte>
    decreases |s|
  {
    if s == [] then [] else Emit(p, s[0]) + Out(Step(p, s[0]), s[1..])
  }

  /** Feeding in pieces is feeding at once. */
  lemma {:induction false} RunConcat(p: Parser, a: seq<Byte>, b: seq<Byte>)
    ensures Run(p, a + b) == Run(Run(p, a), b)
    ensures Out(p, a + b) == Out(p, a) + Out(Run(p, a), b)
    decreases |a|
  {
    if a == [] {
      assert a + b == b;
    } else {
      assert (a + b)[1..] == a[1..] + b;
      RunConcat(Step(p, a[0]), a[1..], b);
    }
  }

  lemma RunSnoc(p: Parser, a: seq<Byte>, b: Byte)
    ensures Run(p, a + [b]) == Step(Run(p, a), b)
    ensures Out(p, a + [b]) == Out(p, a) + Emit(Run(p, a), b)
  {
    RunConcat(p, a, [b]);
    hide Step, Emit;
    assert [b][1..] == [];
    assert Emit(Run(p, a), b) + [] == Emit(Run(p, a), b);
  }

  // ----- the reference decoder ---------------------------------------------------------

  /** Payload bytes of the data frames of a stream, read a frame at a time; the
      last frame may be cut short. */
  function Decoded(s: seq<Byte>): seq<Byte>
    decreases |s|
  {
    match ReadHead(s)
    case Short => []
    case Head(opcode, _, len, size) =>
      var end := Min(size + len, |s|);
      (if IsData(opcode) then s[size..end] else []) + Decoded(s[end..])
  }

  lemma {:induction false} RunPayload(p: Parser, s: seq<Byte>)
    requires p.state == Payload && p.payloadBytesRead + |s| <= p.payloadLen && p.payloadBytesRead < p.payloadLen
    ensures Out(p, s) == if IsData(p.opcode) then s else []
    decreases |s|
    ensures Run(p, s).state == if p.payloadBytesRead + |s| == p.payloadLen then Byte0 else Payload
  {
    if s == [] {
    } else {
      var q := Step(p, s[0]);
      if |s| > 1 {
        RunPayload(q, s[1..]);
      }
      assert s == [s[0]] + s[1..];
    }
  }

  lemma {:induction false} RunLength64(p: Parser, read: seq<Byte>, s: seq<Byte>)
    requires p.state == ExtLen64 && |read| == p.extLenBytesRead < 8 && |read| + |s| <= 8
    requires p.payloadLen == FromBigEndian(read)
    ensures Out(p, s) == []
    ensures |read| + |s| == 8 ==> Run(p, s) == AfterLength(p.(payloadLen := FromBigEndian(read + s),
                                                              extLenBytesRead := 8))
    decreases |s|
  {
    if s == [] {
    } else {
      var next := read + [s[0]];
      assert next[..|next| - 1] == read;
      assert FromBigEndian(next) == 256 * FromBigEndian(read) + s[0];
      FromBigEndianBound(next);
      PowBound(|next|);
      assert read + s == next + s[1..];
      if |next| < 8 {
        RunLength64(Step(p, s[0]), next, s[1..]);
      } else {
        assert s[1..] == [] && next + s[1..] == next;
      }
    }
  }

  lemma PowBound(k: nat)
    requires k <= 8
    ensures Pow256(k) <= U64
  {
    assert Pow256(4) == 0x1_0000_0000;
    assert Pow256(8) == U64;
    assert Pow256(5) <= Pow256(6) <= Pow256(7) <= Pow256(8);
    assert Pow256(1) <= Pow256(2) <= Pow256(3) <= Pow256(4) <= Pow256(5);
  }

  lemma RunTwo(p: Parser, a: Byte, b: Byte, ext: seq<Byte>)
    requires p.state == Byte0
    ensures var q := Step(Step(p, a), b); Out(p, [a, b] + ext) == Out(q, ext) && Run(p, [a, b] + ext) == Run(q, ext)
  {
    assert ([a, b] + ext)[1..] == [b] + ext && ([b] + ext)[1..] == ext;
  }

  lemma RunNothing(p: Parser)
    ensures Run(p, []) == p && Out(p, []) == []
  {
  }

  /** A parser between frames reads a head and is then ready for the payload. */
  lemma RunHead(p: Parser, s: seq<Byte>)
    requires p.state == Byte0
    ensures ReadHead(s).Short? ==> Out(p, s) == []
    ensures ReadHead(s).Head? ==>
              var h := ReadHead(s);
              var q := Run(p, s[..h.size]);
              && Out(p, s[..h.size]) == []
              && (q.state == if h.len == 0 then Byte0 else Payload)
              && q.opcode == h.opcode && q.payloadLen == h.len && q.payloadBytesRead == 0
  {
    if |s| == 1 {
      assert s[1..] == [];
    } else if |s| >= 2 {
      var len7, size := s[1] % 128, 2 + ExtSize(s[1] % 128);
      var p2 := Step(Step(p, s[0]), s[1]);
      var ext := if |s| < size then s[2..] else s[2..size];
      TwoSteps(p, s[0], s[1]);
      RunTwo(p, s[0], s[1], ext);
      assert [s[0], s[1]] + ext == if |s| < size then s else s[..size];
      RunNothing(p2);
      hide Run, Out, Step, FromBigEndian;
      if len7 == 126 {
        RunLength16(p2, ext);
      } else if len7 == 127 {
        assert [] + ext == ext && FromBigEndian([]) == 0 by { NothingIsZero(); }
        RunLength64(p2, [], ext);
      } else {
        assert ext == [];
      }
    }
  }

  lemma NothingIsZero()
    ensures FromBigEndian([]) == 0
  {
  }

  /** The machine after the first two bytes of a frame. */
  lemma TwoSteps(p: Parser, a: Byte, b: Byte)
    requires p.state == Byte0
    ensures var q := Step(Step(p, a), b);
            && q.opcode == a % 16
            && (b % 128 < 126 ==> q.state == (if b % 128 == 0 then Byte0 else Payload)
                                  && q.payloadLen == b % 128 && q.payloadBytesRead == 0)
            && (b % 128 == 126 ==> q.state == ExtLen16Hi)
            && (b % 128 == 127 ==> q.state == ExtLen64 && q.payloadLen == q.extLenBytesRead == 0)
  {
  }

  lemma RunLength16(p: Parser, s: seq<Byte>)
    requires p.state == ExtLen16Hi && |s| <= 2
    ensures Out(p, s) == []
    ensures |s| == 2 ==> Run(p, s) == AfterLength(p.(payloadLen := FromBigEndian(s)))
  {
    if |s| == 1 {
      assert s[1..] == [];
    } else if |s| == 2 {
      var q, t := Step(p, s[0]), s[1..];
      assert t[1..] == [] && t[0] == s[1];
      assert Run(q, t) == Step(q, t[0]) && Out(q, t) == [];
      assert s[..1][..0] == [] && FromBigEndian(s[..1]) == s[0];
      assert s[..|s| - 1] == s[..1];
    }
  }

  /** The payload of the frame at the front of s, run through the machine. */
  lemma RunFrame(p: Parser, s: seq<Byte>)
    requires p.state == Byte0 && ReadHead(s).Head?
    ensures var h := ReadHead(s);
            var end := Min(h.size + h.len, |s|);
            && Out(p, s[..end]) == (if IsData(h.opcode) then s[h.size..end] else [])
            && (Run(p, s[..end]).state == Byte0 || end == |s|)
  {
    RunHead(p, s);
    hide ReadHead, Step, Run, Out;
    var h := ReadHead(s);
    var end := Min(h.size + h.len, |s|);
    var q := Run(p, s[..h.size]);
    assert s[..end] == s[..h.size] + s[h.size..end];
    RunConcat(p, s[..h.size], s[h.size..end]);
    Regroup([], Out(q, s[h.size..end]), []);
    if h.len > 0 {
      RunPayload(q, s[h.size..end]);
    } else {
      assert s[h.size..end] == [];
      RunNothing(q);
    }
  }

  /** On every byte stream the machine emits what the reference decoder reads. */
  lemma {:induction false} MachineIsDecoder(p: Parser, s: seq<Byte>)
    requires p.state == Byte0
    ensures Out(p, s) == Decoded(s)
    decreases |s|
  {
    hide ReadHead, Step, Run, Out;
    if ReadHead(s).Short? {
      RunHead(p, s);
    } else {
      var h := ReadHead(s);
      var end := Min(h.size + h.len, |s|);
      RunFrame(p, s);
      assert s == s[..end] + s[end..];
      RunConcat(p, s[..end], s[end..]);
      var q := Run(p, s[..end]);
      if q.state == Byte0 {
        MachineIsDecoder(q, s[end..]);
      } else {
        assert s[end..] == [];
        RunNothing(q);
        NothingDecoded();
      }
    }
  }

  lemma NothingDecoded()
    ensures Decoded([]) == []
  {
  }

  // ----- decoding what a server writes -------------------------------------------------------

  datatype Frame = Frame(opcode: Byte, payload: seq<Byte>)

  predicate ValidFrame(f: Frame) {
    f.opcode < 16 && |f.payload| < U64
  }

  predicate AllValid(fs: seq<Frame>) {
    forall i | 0 <= i < |fs| :: ValidFrame(fs[i])
  }

  function Wire(fs: seq<Frame>): seq<Byte>
    requires AllValid(fs)
  {
    if fs == [] then [] else ServerFrame(fs[0].opcode, fs[0].payload) + Wire(fs[1..])
  }

  function DataOf(fs: seq<Frame>): seq<Byte> {
    if fs == [] then [] else (if IsData(fs[0].opcode) then fs[0].payload else []) + DataOf(fs[1..])
  }

  lemma DecodeFrame(f: Frame, tail: seq<Byte>)
    requires ValidFrame(f)
    ensures Decoded(ServerFrame(f.opcode, f.payload) + tail)
            == (if IsData(f.opcode) then f.payload else []) + Decoded(tail)
  {
    var field := LengthField(false, |f.payload|);
    var s := ServerFrame(f.opcode, f.payload) + tail;
    assert s == [FIN + f.opcode] + field + (f.payload + tail);
    HeadOfFrame(f.opcode, false, |f.payload|, f.payload + tail);
    var size := 1 + |field|;
    assert s[size..size + |f.payload|] == f.payload && s[size + |f.payload|..] == tail;
  }

  lemma {:induction false} DecodeWire(fs: seq<Frame>, rest: seq<Byte>)
    requires AllValid(fs)
    ensures Decoded(Wire(fs) + rest) == DataOf(fs) + Decoded(rest)
  {
    if fs == [] {
      assert Wire(fs) + rest == rest;
    } else {
      var tail := Wire(fs[1..]) + rest;
      assert Wire(fs) + rest == ServerFrame(fs[0].opcode, fs[0].payload) + tail;
      DecodeFrame(fs[0], tail);
      DecodeWire(fs[1..], rest);
    }
  }

  /** What is decoded of a prefix is a prefix of what is decoded of the whole. */
  lemma DecodedMonotone(s: seq<Byte>, cut: nat)
    requires cut <= |s|
    ensures Decoded(s[..cut]) <= Decoded(s)
  {
    hide *;
    var p := Parser(Byte0, 0, 0, 0, 0);
    var a, b := s[..cut], s[cut..];
    assert s == a + b;
    RunConcat(p, a, b);
    MachineIsDecoder(p, a);
    MachineIsDecoder(p, s);
    assert Decoded(s) == Decoded(a) + Out(Run(p, a), b);
  }

  lemma WireDecodes(fs: seq<Frame>)
    requires AllValid(fs)
    ensures Decoded(Wire(fs)) == DataOf(fs)
  {
    hide *;
    DecodeWire(fs, []);
    NothingDecoded();
    assert Wire(fs) + [] == Wire(fs);
    assert DataOf(fs) + [] == DataOf(fs);
  }

  /** Whatever prefix of the frames has arrived, what has been decoded is a prefix
      of the data; when all has arrived it is all of the data. */
  lemma PrefixDecodes(fs: seq<Frame>, cut: nat)
    requires AllValid(fs)
    requires cut <= |Wire(fs)|
    ensures Decoded(Wire(fs)[..cut]) <= DataOf(fs)
    ensures Decoded(Wire(fs)) == DataOf(fs)
  {
    hide *;
    WireDecodes(fs);
    DecodedMonotone(Wire(fs), cut);
  }

  // ----- the reader itself ------------------------------------------------------------------------

  class Reader {
    var state: State
    var opcode: Byte
    var fin: bool
    var payloadLen: nat
    var extLenBytesRead: nat
    var payloadBytesRead: nat
    var buf: seq<Byte>
    var readPos: nat
    ghost var fed: seq<Byte>
    ghost var taken: seq<Byte>

    ghost function Machine(): Parser
      reads this
    {
      Parser(state, opcode, payloadLen, extLenBytesRead, payloadBytesRead)
    }

    function Pending(): seq<Byte>
      requires readPos <= |buf|
      reads this
    {
      buf[readPos..]
    }

    /** Over any run, what was taken followed by what is buffered is exactly what
        the reference decoder reads from everything fed so far. */
    ghost predicate Valid()
      reads this
    {
      && readPos <= |buf|
      && Machine() == Run(Parser(Byte0, 0, 0, 0, 0), fed)
      && taken + Pending() == Out(Parser(Byte0, 0, 0, 0, 0), fed)
    }

    lemma Lossless()
      requires Valid()
      ensures taken + Pending() == Decoded(fed)
    {
      MachineIsDecoder(Parser(Byte0, 0, 0, 0, 0), fed);
    }

    constructor ()
      ensures Valid() && fed == [] && taken == []
    {
      state, opcode, fin, payloadLen, extLenBytesRead, payloadBytesRead := Byte0, 0, false, 0, 0, 0;
      buf, readPos, fed, taken := [], 0, [], [];
    }

    method ProcessByte(b: Byte)
      requires readPos <= |buf|
      modifies this
      ensures Machine() == Step(old(Machine()), b)
      ensures readPos == old(readPos) && buf == old(buf) + Emit(old(Machine()), b)
      ensures fin == if old(state) == Byte0 then b >= 0x80 else old(fin)
      ensures fed == old(fed) && taken == old(taken)
    {
      match state
      case Byte0 =>
        fin := b >= 128;
        opcode := b % 16;
        state := Byte1;
      case Byte1 =>
        var len7 := b % 128;
        if len7 < 126 {
          payloadLen := len7;
          payloadBytesRead := 0;
          state := if payloadLen == 0 then Byte0 else Payload;
        } else if len7 == 126 {
          payloadLen, extLenBytesRead := 0, 0;
          state := ExtLen16Hi;
        } else {
          payloadLen, extLenBytesRead := 0, 0;
          state := ExtLen64;
        }
      case ExtLen16Hi =>
        payloadLen := 256 * b;
        state := ExtLen16Lo;
      case ExtLen16Lo =>
        payloadLen := payloadLen + b;
        payloadBytesRead := 0;
        state := if payloadLen == 0 then Byte0 else Payload;
      case ExtLen64 =>
        payloadLen := (256 * payloadLen + b) % U64;
        extLenBytesRead := extLenBytesRead + 1;
        if extLenBytesRead == 8 {
          payloadBytesRead := 0;
          state := if payloadLen == 0 then Byte0 else Payload;
        }
      case Payload =>
        if opcode == BINARY || opcode == CONTINUATION {
          buf := buf + [b];
        }
        payloadBytesRead := payloadBytesRead + 1;
        if payloadBytesRead == payloadLen {
          state := Byte0;
        }
    }

    method Feed(data: seq<Byte>)
      requires Valid()
      modifies this
      ensures Valid() && fed == old(fed) + data && taken == old(taken)
    {
      hide Step, Emit, Run, Out;
      for i := 0 to |data|
        invariant Valid() && fed == old(fed) + data[..i] && taken == old(taken)
      {
        ghost var pending := Pending();
        ProcessByte(data[i]);
        RunSnoc(Parser(Byte0, 0, 0, 0, 0), fed, data[i]);
        Regroup(taken, pending, Pending()[|pending|..]);
        assert Pending() == pending + Pending()[|pending|..];
        fed := fed + [data[i]];
      }
    }

    method CopyOut(dst: array<Byte>, got: nat)
      requires readPos + got <= |buf| && got <= dst.Length
      modifies dst
      ensures dst[..got] == buf[readPos..readPos + got] == Pending()[..got]
      ensures dst[got..] == old(dst[got..])
      ensures Pending() == dst[..got] + buf[readPos + got..]
    {
      forall i | 0 <= i < got {
        dst[i] := buf[readPos + i];
      }
    }

    /** Copies up to n bytes into dst. */
    method Take(dst: array<Byte>, n: nat) returns (got: nat)
      requires Valid() && n <= dst.Length
      modifies this, dst
      ensures Valid() && fed == old(fed)
      ensures got == Min(n, |old(Pending())|)
      ensures dst[..got] == old(Pending())[..got] && Pending() == old(Pending())[got..]
      ensures dst[got..] == old(dst[got..])
      ensures taken == old(taken) + dst[..got]
      ensures |buf| <= 2 * |Pending()|
    {
      var avail := |buf| - readPos;
      got := if n < avail then n else avail;
      CopyOut(dst, got);
      Advance(got);
    }

    /** Moves the read position and compacts the buffer once half of it is read. */
    method Advance(got: nat)
      requires Valid() && got <= |Pending()|
      modifies this
      ensures Valid() && fed == old(fed)
      ensures Pending() == old(Pending())[got..] && taken == old(taken) + old(Pending())[..got]
      ensures |buf| <= 2 * |Pending()|
    {
      ghost var all := Pending();
      assert all == all[..got] + all[got..];
      taken := taken + all[..got];
      readPos := readPos + got;
      assert buf[readPos..] == all[got..];
      if readPos >= |buf| / 2 && readPos > 0 {
        buf := buf[readPos..];
        readPos := 0;
      }
      assert Pending() == all[got..];
      assert taken + Pending() == old(taken) + all;
    }
  }
}
