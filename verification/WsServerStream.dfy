/** The server's view of a WebSocket connection: masked frames in, a plain byte
    stream out. */
module WsServerStream {
  import opened Common
  import opened Bytes
  import opened WsFraming

  const MAX_PAYLOAD: nat := 2 * 1024 * 1024

  // ----- the reference: frames and payload stream of a byte stream ---------------

  datatype Parsed = Cut | TooLong | Whole(opcode: Byte, payload: seq<Byte>, rest: seq<Byte>)

  function HeadSize(h: Head): nat
    requires h.Head?
  {
    h.size + if h.masked then 4 else 0
  }

  /** The first frame of a stream, unmasked. */
  function ParseFrame(s: seq<Byte>): (p: Parsed)
    ensures p.Whole? ==> |p.rest| < |s|
  {
    var h := ReadHead(s);
    if h.Short? || |s| < HeadSize(h) then Cut
    else if h.len > 2_097_152 then TooLong
    else if |s| < HeadSize(h) + h.len then Cut
    else
      var raw := s[HeadSize(h)..HeadSize(h) + h.len];
      Whole(h.opcode, if h.masked then Mask(raw, s[h.size..h.size + 4]) else raw, s[HeadSize(h) + h.len..])
  }

  /** The same cases, for a reader that takes the parts of a frame in turn. */
  lemma NotWhole(s: seq<Byte>, h: Head)
    requires h == ReadHead(s)
    ensures h.Short? || |s| < HeadSize(h) || h.len > MAX_PAYLOAD || |s| < HeadSize(h) + h.len ==> !ParseFrame(s).Whole?
  {
    hide ReadHead, Mask;
  }

  /** The key has been read from what follows the head. */
  lemma KeyTaken(s: seq<Byte>, h: Head, afterHead: seq<Byte>, afterKey: seq<Byte>, key: Key)
    requires h.Head? && h.size <= |s| && afterHead == s[h.size..]
    ensures (!h.masked || 4 <= |afterHead|) <==> HeadSize(h) <= |s|
    ensures HeadSize(h) <= |s| && afterKey == (if h.masked then afterHead[4..] else afterHead) ==>
              afterKey == s[HeadSize(h)..]
    ensures HeadSize(h) <= |s| && h.masked && key == afterHead[..4] ==> key == s[h.size..h.size + 4]
  {
  }

  /** The payload has been read from what follows the key. */
  lemma PayloadTaken(s: seq<Byte>, h: Head, afterKey: seq<Byte>, rest: seq<Byte>, key: Key, payload: seq<Byte>)
    requires h == ReadHead(s) && h.Head? && HeadSize(h) <= |s| && afterKey == s[HeadSize(h)..]
    requires h.masked ==> key == s[h.size..h.size + 4]
    ensures h.len > MAX_PAYLOAD || h.len > |afterKey| ==> !ParseFrame(s).Whole?
    ensures h.len <= MAX_PAYLOAD && h.len <= |afterKey| && rest == afterKey[h.len..]
            && payload == (if h.masked then Mask(afterKey[..h.len], key) else afterKey[..h.len]) ==>
              ParseFrame(s) == Whole(h.opcode, payload, rest)
  {
    hide ReadHead, Mask;
    if h.len <= |afterKey| {
      Sliced(s, HeadSize(h), h.len);
    }
  }

  lemma Sliced(s: seq<Byte>, from: nat, n: nat)
    requires from + n <= |s|
    ensures s[from..][..n] == s[from..from + n] && s[from..][n..] == s[from + n..]
  {
  }

  datatype Fill = Ended | Data(payload: seq<Byte>, rest: seq<Byte>)

  /** The next frame that is not a ping or pong.  A close ends the stream, and so
      does an empty payload when nothing else is waiting to be read. */
  function NextData(s: seq<Byte>, waiting: bool): (f: Fill)
    ensures f.Data? ==> |f.rest| < |s| && (waiting || f.payload != [])
    decreases |s|
  {
    match ParseFrame(s)
    case Cut => Ended
    case TooLong => Ended
    case Whole(opcode, payload, rest) =>
      if opcode == 8 then Ended
      else if opcode == 9 || opcode == 10 then NextData(rest, waiting)
      else if payload == [] && !waiting then Ended
      else Data(payload, rest)
  }

  /** All payload bytes a reader that drains its buffer will see. */
  function PayloadStream(s: seq<Byte>): seq<Byte>
    decreases |s|
  {
    match NextData(s, false)
    case Ended => []
    case Data(payload, rest) => payload + PayloadStream(rest)
  }

  /** Unframing inverts the client's framing and stops exactly at its end. */
  lemma ParseClientFrame(opcode: Byte, payload: seq<Byte>, key: Key, rest: seq<Byte>)
    requires opcode < 16 && |payload| <= MAX_PAYLOAD
    ensures ParseFrame(ClientFrame(opcode, payload, key) + rest) == Whole(opcode, payload, rest)
  {
    var n := |payload|;
    var field, body := LengthField(true, n), Mask(payload, key);
    var s := ClientFrame(opcode, payload, key) + rest;
    assert s == [FIN + opcode] + field + (key + body + rest);
    HeadOfFrame(opcode, true, n, key + body + rest);
    var size := 1 + |field|;
    assert s[size..size + 4] == key && s[size + 4..size + 4 + n] == body && s[size + 4 + n..] == rest;
    MaskTwice(payload, key);
  }

  datatype Sent = Sent(opcode: Byte, payload: seq<Byte>, key: Key)

  predicate Sendable(f: Sent) {
    && |f.payload| <= 2_097_152
    && (f.opcode == 9 || f.opcode == 10 || (f.opcode == 2 && f.payload != []))
  }

  predicate AllSendable(fs: seq<Sent>) {
    forall i | 0 <= i < |fs| :: Sendable(fs[i])
  }

  function Framed(fs: seq<Sent>): seq<Byte>
    requires AllSendable(fs)
  {
    if fs == [] then [] else ClientFrame(fs[0].opcode, fs[0].payload, fs[0].key) + Framed(fs[1..])
  }

  function Payloads(fs: seq<Sent>): seq<Byte> {
    if fs == [] then [] else (if fs[0].opcode == 2 then fs[0].payload else []) + Payloads(fs[1..])
  }

  lemma StreamStep(opcode: Byte, payload: seq<Byte>, s: seq<Byte>, rest: seq<Byte>)
    requires ParseFrame(s) == Whole(opcode, payload, rest)
    ensures (opcode == PING || opcode == PONG) ==> PayloadStream(s) == PayloadStream(rest)
    ensures opcode == BINARY && payload != [] ==> PayloadStream(s) == payload + PayloadStream(rest)
  {
  }

  /** Reading many client frames, with pings and pongs between them, reads the
      concatenation of their payloads. */
  lemma {:induction false} StreamOfFrames(fs: seq<Sent>, rest: seq<Byte>)
    requires AllSendable(fs)
    ensures PayloadStream(Framed(fs) + rest) == Payloads(fs) + PayloadStream(rest)
  {
    if fs == [] {
      assert Framed(fs) + rest == rest;
    } else {
      var f, tail := fs[0], Framed(fs[1..]) + rest;
      assert Framed(fs) + rest == ClientFrame(f.opcode, f.payload, f.key) + tail;
      ParseClientFrame(f.opcode, f.payload, f.key, tail);
      StreamStep(f.opcode, f.payload, Framed(fs) + rest, tail);
      StreamOfFrames(fs[1..], rest);
      Regroup(if f.opcode == BINARY then f.payload else [], Payloads(fs[1..]), PayloadStream(rest));
    }
  }

  // ----- the stream object ------------------------------------------------------------

  datatype FirstRead = Got(b: Byte) | TimedOut | Closed

  class Stream {
    var tls: seq<Byte>  // what the peer has still to deliver before it closes
    var buf: seq<Byte>
    var bufPos: nat
    var timedOut: bool

    constructor (tls: seq<Byte>)
      ensures this.tls == tls && bufPos == 0 && buf == [] && !timedOut
    {
      this.tls, buf, bufPos, timedOut := tls, [], 0, false;
    }

    function Pending(): seq<Byte>
      requires bufPos <= |buf|
      reads this
    {
      buf[bufPos..]
    }

    /** Everything the reader has still to see. */
    ghost function Ahead(): seq<Byte>
      requires bufPos <= |buf|
      reads this
    {
      Pending() + PayloadStream(tls)
    }

    /** One read of one byte, which may time out at any moment. */
    method ReadFirst() returns (r: FirstRead)
      modifies this`tls
      ensures r.Got? ==> old(tls) != [] && r.b == old(tls)[0] && tls == old(tls)[1..]
      ensures !r.Got? ==> tls == old(tls)
      ensures r.Closed? ==> tls == []
    {
      var late: bool := *;
      if late {
        r := TimedOut;
      } else if tls == [] {
        r := Closed;
      } else {
        r := Got(tls[0]);
        tls := tls[1..];
      }
    }

    /** Blocks until n bytes have arrived, in pieces of any size. */
    method ReadBlock(n: nat) returns (ok: bool, bytes: seq<Byte>)
      modifies this`tls
      ensures ok <==> n <= |old(tls)|
      ensures ok ==> bytes == old(tls)[..n] && tls == old(tls)[n..]
    {
      bytes := [];
      var left := n;
      while left > 0
        invariant 0 <= left <= n && n - left <= |old(tls)|
        invariant bytes == old(tls)[..n - left] && tls == old(tls)[n - left..]
      {
        if tls == [] {
          return false, bytes;
        }
        var r: nat :| 1 <= r <= left && r <= |tls|;
        bytes, tls, left := bytes + tls[..r], tls[r..], left - r;
      }
      ok := true;
    }

    /** Reads the extended length, if the short length asks for one. */
    method ReadLength(len7: nat) returns (ok: bool, payLen: nat)
      requires len7 < 128
      modifies this`tls
      ensures ok <==> ExtSize(len7) <= |old(tls)|
      ensures ok ==> tls == old(tls)[ExtSize(len7)..]
                     && payLen == if len7 < 126 then len7 else FromBigEndian(old(tls)[..ExtSize(len7)])
    {
      ok, payLen := true, len7;
      assert tls == old(tls)[0..];
      if payLen == 126 {
        var ext;
        ok, ext := ReadBlock(2);
        if !ok { return; }
        payLen := 256 * (ext[0] as int) + ext[1] as int;
        assert ext[..1][..0] == [] && FromBigEndian(ext[..1]) == ext[0];
      } else if payLen == 127 {
        var ext;
        ok, ext := ReadBlock(8);
        if !ok { return; }
        payLen := 0;
        for i := 0 to 8
          invariant payLen == FromBigEndian(ext[..i]) < Pow256(i)
          invariant tls == old(tls)[8..]
        {
          assert ext[..i + 1][..i] == ext[..i];
          FromBigEndianBound(ext[..i + 1]);
          payLen := 256 * payLen + ext[i] as int;
        }
        assert ext[..8] == ext;
      }
    }

    method Unmask(raw: seq<Byte>, key: Key) returns (payload: seq<Byte>)
      ensures payload == Mask(raw, key)
    {
      payload := raw;
      for i := 0 to |raw|
        invariant |payload| == |raw|
        invariant forall j | 0 <= j < i :: payload[j] == Xor(raw[j], key[j % 4])
        invariant forall j | i <= j < |raw| :: payload[j] == raw[j]
      {
        payload := payload[i := Xor(payload[i], key[i % 4])];
      }
    }

    /** The rest of a frame's head, after its first byte b0. */
    method ReadHeadAfter(b0: Byte) returns (ok: bool, masked: bool, payLen: nat)
      modifies this`tls
      ensures ok <==> ReadHead([b0] + old(tls)).Head?
      ensures ok ==> var h := ReadHead([b0] + old(tls));
                     && h.opcode == b0 % 16 && h.masked == masked && h.len == payLen
                     && h.size <= |[b0] + old(tls)| && tls == ([b0] + old(tls))[h.size..]
    {
      ghost var s := [b0] + tls;
      masked, payLen := false, 0;
      var second;
      ok, second := ReadBlock(1);
      if !ok { return; }
      var b1 := second[0];
      masked := b1 >= 128;
      assert s[1] == b1 && s[2..] == tls;
      ok, payLen := ReadLength(b1 % 128);
      if ok {
        Sliced(s, 2, ExtSize(b1 % 128));
      }
    }

    /** The mask key, zero where there is none. */
    method ReadKey(masked: bool) returns (ok: bool, key: Key)
      modifies this`tls
      ensures ok <==> !masked || 4 <= |old(tls)|
      ensures ok && masked ==> key == old(tls)[..4]
      ensures ok ==> tls == if masked then old(tls)[4..] else old(tls)
    {
      ok, key := true, [0, 0, 0, 0];
      if masked {
        var k;
        ok, k := ReadBlock(4);
        if ok {
          key := k;
        }
      }
    }

    /** The payload, unmasked; too long a one is not read. */
    method ReadPayload(payLen: nat, masked: bool, key: Key) returns (ok: bool, payload: seq<Byte>)
      modifies this`tls
      ensures ok <==> payLen <= MAX_PAYLOAD && payLen <= |old(tls)|
      ensures ok ==> tls == old(tls)[payLen..]
                     && payload == if masked then Mask(old(tls)[..payLen], key) else old(tls)[..payLen]
    {
      payload := [];
      if payLen > MAX_PAYLOAD {
        return false, payload;
      }
      ok, payload := ReadBlock(payLen);
      if !ok { return; }
      if masked {
        payload := Unmask(payload, key);
      }
    }

    /** The rest of a frame whose first byte is b0. */
    method ReadFrame(b0: Byte) returns (ok: bool, opcode: Byte, payload: seq<Byte>)
      modifies this`tls
      ensures ok ==> ParseFrame([b0] + old(tls)) == Whole(opcode, payload, tls) && |tls| <= |old(tls)|
      ensures !ok ==> !ParseFrame([b0] + old(tls)).Whole?
    {
      ghost var s := [b0] + tls;
      opcode, payload := b0 % 16, [];
      var masked, payLen;
      ok, masked, payLen := ReadHeadAfter(b0);
      ghost var h := ReadHead(s);
      NotWhole(s, h);
      if !ok { return; }
      hide ReadHead, ParseFrame, Mask, HeadSize;
      ghost var afterHead := tls;
      var key;
      ok, key := ReadKey(masked);
      KeyTaken(s, h, afterHead, tls, key);
      if !ok { return; }
      ghost var afterKey := tls;
      ok, payload := ReadPayload(payLen, masked, key);
      PayloadTaken(s, h, afterKey, tls, key, payload);
    }

    /** Reads frames until one has data to append.  A time-out happens only
        between frames and loses nothing. */
    method FillBuf() returns (ok: bool)
      requires bufPos <= |buf|
      modifies this
      ensures bufPos <= |buf|
      ensures ok ==> !timedOut && |tls| < |old(tls)| && old(Pending()) <= Pending()
                     && NextData(old(tls), old(Pending()) != []) == Data(Pending()[|old(Pending())|..], tls)
      ensures !ok && timedOut ==>
                Pending() == old(Pending()) && NextData(tls, Pending() != []) == NextData(old(tls), Pending() != [])
      ensures !ok && !timedOut ==> NextData(old(tls), old(Pending()) != []).Ended?
      decreases |tls|
    {
      hide ParseFrame, ReadHead, PayloadStream;
      ghost var s, before := tls, Pending();
      timedOut := false;
      if bufPos > 0 {
        buf := buf[bufPos..];
        bufPos := 0;
      }
      assert Pending() == before && buf == before;
      var first := ReadFirst();
      if !first.Got? {
        timedOut := first.TimedOut?;
        return false;
      }
      assert [first.b] + tls == s;
      var whole, opcode, payload := ReadFrame(first.b);
      if !whole {
        return false;
      }
      var startPos := |buf|;
      buf := buf + payload;
      if opcode == CLOSE {
        return false;
      }
      if opcode == PING || opcode == PONG {
        buf := buf[..startPos];
        assert Pending() == before;
        ok := FillBuf();
        return;
      }
      ok := |buf| > bufPos;
    }

    /** Reads exactly n bytes of payload, over as many frames as it takes. */
    method ReadExact(n: nat) returns (ok: bool, out: seq<Byte>)
      requires bufPos <= |buf|
      modifies this
      ensures bufPos <= |buf|
      ensures ok ==> n <= |old(Ahead())| && out == old(Ahead())[..n] && Ahead() == old(Ahead())[n..]
      ensures !ok && !timedOut ==> |old(Ahead())| < n
    {
      hide PayloadStream, NextData;
      ghost var all := Ahead();
      out := [];
      var left := n;
      while left > 0
        invariant 0 <= left <= n && bufPos <= |buf|
        invariant out + Ahead() == all && |out| == n - left
      {
        if bufPos >= |buf| {
          ghost var s := tls;
          assert Pending() == [] && Ahead() == PayloadStream(s);
          var filled := FillBuf();
          StreamUnfold(s);
          if !filled {
            return false, out;
          }
          assert Ahead() == PayloadStream(s);
        }
        var avail := |buf| - bufPos;
        var take := if avail < left then avail else left;
        ghost var ahead, before := Ahead(), out;
        var piece := CopyOut(take);
        Regroup(before, piece, Ahead());
        out, left := out + piece, left - take;
      }
      ok := true;
    }

    lemma StreamUnfold(s: seq<Byte>)
      ensures PayloadStream(s) == match NextData(s, false)
                                  case Ended => []
                                  case Data(p, rest) => p + PayloadStream(rest)
    {
    }

    /** Hands out buffered bytes. */
    method CopyOut(take: nat) returns (piece: seq<Byte>)
      requires bufPos + take <= |buf|
      modifies this`bufPos
      ensures bufPos == old(bufPos) + take && |piece| == take
      ensures piece + Ahead() == old(Ahead())
    {
      hide PayloadStream;
      piece := buf[bufPos..bufPos + take];
      assert Pending() == piece + buf[bufPos + take..];
      bufPos := bufPos + take;
      Regroup(piece, Pending(), PayloadStream(tls));
    }

    /** Up to maxLen bytes; 0 means try again, -1 means the stream has ended. */
    method Recv(maxLen: int) returns (r: int, out: seq<Byte>)
      requires bufPos <= |buf|
      modifies this
      ensures bufPos <= |buf|
      ensures r > 0 ==> r <= maxLen && r <= |old(Ahead())| && out == old(Ahead())[..r] && Ahead() == old(Ahead())[r..]
      ensures r == 0 ==> Ahead() == old(Ahead()) && (maxLen > 0 ==> timedOut)
      ensures r < 0 ==> r == -1 && old(Ahead()) == []
      // What is buffered is handed out at once.
      ensures maxLen > 0 && old(Pending()) != [] ==>
                r == if |old(Pending())| < maxLen then |old(Pending())| else maxLen
    {
      r, out := 0, [];
      if maxLen <= 0 {
        return;
      }
      if bufPos >= |buf| {
        ghost var s := tls;
        assert Pending() == [] && Ahead() == PayloadStream(s);
        var filled := FillBuf();
        StreamUnfold(s);
        if !filled {
          StreamUnfold(tls);
          return if timedOut then 0 else -1, [];
        }
        assert Ahead() == PayloadStream(s);
      }
      ghost var all := Ahead();
      var avail := |buf| - bufPos;
      var take := if avail < maxLen then avail else maxLen;
      out := CopyOut(take);
      r := take;
      assert all == out + Ahead();
    }
  }
}
