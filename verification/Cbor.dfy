/** The CBOR subset parser (RFC 8949 section 3) behind passkey registration. */
module Cbor {
  import opened Common
  import opened Bytes

  const MAX_DEPTH: nat := 12
  const MAX_STRING: nat := 65536
  const MAX_ARRAY: nat := 512
  const MAX_MAP: nat := 64

  // ----- values, and the encoded items they come from ------------------------------------

  /** What the parser hands back.  A map is a flat list k0, v0, k1, v1, ... */
  datatype Val = Uint(u: nat) | Nint(u: nat) | ByteString(bytes: seq<Byte>) | TextString(text: seq<Byte>)
               | Array(items: seq<Val>) | Map(items: seq<Val>) | Other

  /** Size in bytes of a head's argument; 0 means it is in the initial byte. */
  type Width = w: nat | w == 0 || w == 1 || w == 2 || w == 4 || w == 8

  /** An encoded data item, with the width its head uses. */
  datatype Item =
    | UintItem(w: Width, n: nat)
    | NintItem(w: Width, n: nat)
    | BytesItem(w: Width, data: seq<Byte>)
    | TextItem(w: Width, data: seq<Byte>)
    | ArrayItem(w: Width, items: seq<Item>)
    | MapItem(w: Width, items: seq<Item>)
    | TagItem(w: Width, n: nat, inner: Item)
    | SimpleItem(w: Width, n: nat)

  /** Tags, floats and simple values all come back as Other. */
  function Meaning(i: Item): Val {
    match i
    case UintItem(_, n) => Uint(n)
    case NintItem(_, n) => Nint(n)
    case BytesItem(_, d) => ByteString(d)
    case TextItem(_, d) => TextString(d)
    case ArrayItem(_, items) => Array(Meanings(items))
    case MapItem(_, items) => Map(Meanings(items))
    case TagItem(_, _, _) => Other
    case SimpleItem(_, _) => Other
  }

  function Meanings(items: seq<Item>): (vs: seq<Val>)
    ensures |vs| == |items|
  {
    if items == [] then [] else [Meaning(items[0])] + Meanings(items[1..])
  }

  // ----- encoding -------------------------------------------------------------------------

  predicate Fits(w: Width, n: nat) {
    if w == 0 then n <= 23 else n < Pow256(w)
  }

  function Info(w: Width, n: nat): nat
    requires Fits(w, n)
  {
    if w == 0 then n else if w == 1 then 24 else if w == 2 then 25 else if w == 4 then 26 else 27
  }

  function HeadOf(major: nat, w: Width, n: nat): seq<Byte>
    requires major < 8 && Fits(w, n)
  {
    [major * 32 + Info(w, n)] + BigEndian(n, w)
  }

  /** An item whose heads hold their arguments, within the parser's limits. */
  predicate Valid(i: Item, depth: nat)
    decreases i
  {
    depth <= 12 &&
    match i
    case UintItem(w, n) => Fits(w, n)
    case NintItem(w, n) => Fits(w, n)
    case BytesItem(w, d) => Fits(w, |d|) && |d| <= 65536
    case TextItem(w, d) => Fits(w, |d|) && |d| <= 65536
    case ArrayItem(w, items) => Fits(w, |items|) && |items| <= 512 && AllValid(items, depth + 1)
    case MapItem(w, items) =>
      |items| % 2 == 0 && Fits(w, |items| / 2) && |items| / 2 <= 64 && AllValid(items, depth + 1)
    case TagItem(w, n, inner) => Fits(w, n) && Valid(inner, depth + 1)
    case SimpleItem(w, n) => Fits(w, n)
  }

  predicate AllValid(items: seq<Item>, depth: nat)
    decreases items
  {
    items != [] ==> Valid(items[0], depth) && AllValid(items[1..], depth)
  }

  function Encode(i: Item, depth: nat): seq<Byte>
    requires Valid(i, depth)
    decreases i
  {
    match i
    case UintItem(w, n) => HeadOf(0, w, n)
    case NintItem(w, n) => HeadOf(1, w, n)
    case BytesItem(w, d) => HeadOf(2, w, |d|) + d
    case TextItem(w, d) => HeadOf(3, w, |d|) + d
    case ArrayItem(w, items) => HeadOf(4, w, |items|) + EncodeAll(items, depth + 1)
    case MapItem(w, items) => HeadOf(5, w, |items| / 2) + EncodeAll(items, depth + 1)
    case TagItem(w, n, inner) => HeadOf(6, w, n) + Encode(inner, depth + 1)
    case SimpleItem(w, n) => HeadOf(7, w, n)
  }

  function EncodeAll(items: seq<Item>, depth: nat): seq<Byte>
    requires AllValid(items, depth)
    decreases items
  {
    if items == [] then [] else Encode(items[0], depth) + EncodeAll(items[1..], depth)
  }

  // ----- the parser as a function ------------------------------------------------------------

  datatype HeadRead = HeadRead(major: nat, w: Width, n: nat, rest: seq<Byte>)

  function WidthOf(ai: nat): Option<Width> {
    if ai <= 23 then Some(0) else if ai == 24 then Some(1) else if ai == 25 then Some(2)
    else if ai == 26 then Some(4) else if ai == 27 then Some(8) else None
  }

  function ReadHead(s: seq<Byte>): (r: Option<HeadRead>)
    ensures r.Some? ==> |r.value.rest| < |s| && r.value.major < 8
  {
    if s == [] then None else
      var w := WidthOf(s[0] % 32);
      if w.None? || |s| < 1 + w.value then None
      else Some(HeadRead(s[0] / 32, w.value,
                         if w.value == 0 then s[0] % 32 else FromBigEndian(s[1..1 + w.value]), s[1 + w.value..]))
  }

  datatype Parsed = Failed | Parsed(item: Item, rest: seq<Byte>)

  datatype ParsedAll = FailedAll | ParsedAll(items: seq<Item>, rest: seq<Byte>)

  function ParseItem(s: seq<Byte>, depth: nat): (r: Parsed)
    ensures r.Parsed? ==> |r.rest| < |s|
    decreases |s|, 0
  {
    if depth > MAX_DEPTH || ReadHead(s).None? then Failed
    else ParseBody(ReadHead(s).value, depth)
  }

  /** What follows a head. */
  function ParseBody(h: HeadRead, depth: nat): (r: Parsed)
    requires h.major < 8
    ensures r.Parsed? ==> |r.rest| <= |h.rest|
    decreases |h.rest|, 2
  {
    var HeadRead(major, w, n, rest) := h;
    if major == 0 then Parsed(UintItem(w, n), rest)
    else if major == 1 then Parsed(NintItem(w, n), rest)
    else if major == 2 || major == 3 then
      (if n > MAX_STRING || n > |rest| then Failed
       else Parsed(if major == 2 then BytesItem(w, rest[..n]) else TextItem(w, rest[..n]), rest[n..]))
    else if major == 4 then
      (if n > MAX_ARRAY then Failed else
       match ParseItems(rest, n, depth + 1)
       case FailedAll => Failed
       case ParsedAll(items, more) => Parsed(ArrayItem(w, items), more))
    else if major == 5 then
      (if n > MAX_MAP then Failed else
       match ParseItems(rest, 2 * n, depth + 1)
       case FailedAll => Failed
       case ParsedAll(items, more) => Parsed(MapItem(w, items), more))
    else if major == 6 then
      (match ParseItem(rest, depth + 1)
       case Failed => Failed
       case Parsed(inner, more) => Parsed(TagItem(w, n, inner), more))
    else Parsed(SimpleItem(w, n), rest)
  }

  function ParseItems(s: seq<Byte>, count: nat, depth: nat): (r: ParsedAll)
    ensures r.ParsedAll? ==> |r.rest| <= |s| && |r.items| == count
    decreases |s|, 1
  {
    if count == 0 then ParsedAll([], s) else
      match ParseItem(s, depth)
      case Failed => FailedAll
      case Parsed(item, rest) =>
        match ParseItems(rest, count - 1, depth)
        case FailedAll => FailedAll
        case ParsedAll(items, more) => ParsedAll([item] + items, more)
  }

  // ----- parsing inverts encoding, and accepts nothing else --------------------------------------

  lemma HeadRoundTrip(major: nat, w: Width, n: nat, rest: seq<Byte>)
    requires major < 8 && Fits(w, n)
    ensures ReadHead(HeadOf(major, w, n) + rest) == Some(HeadRead(major, w, n, rest))
  {
    var s := HeadOf(major, w, n) + rest;
    assert s[0] == major * 32 + Info(w, n) && s[1..] == BigEndian(n, w) + rest;
    assert s[1..1 + w] == BigEndian(n, w) && s[1 + w..] == rest;
    assert s[0] % 32 == Info(w, n) && s[0] / 32 == major;
    if w > 0 {
      BigEndianRoundTrip(n, w);
    }
  }

  lemma {:induction false} BigEndianInverse(s: seq<Byte>)
    ensures BigEndian(FromBigEndian(s), |s|) == s
  {
    if s == [] {
    } else {
      BigEndianInverse(s[..|s| - 1]);
      assert s == s[..|s| - 1] + [s[|s| - 1]];
      assert FromBigEndian(s) / 256 == FromBigEndian(s[..|s| - 1]) && FromBigEndian(s) % 256 == s[|s| - 1];
    }
  }

  lemma ThreeParts(s: seq<Byte>, w: nat)
    requires 1 + w <= |s|
    ensures s == [s[0]] + s[1..1 + w] + s[1 + w..] && (w == 0 ==> s[1..1 + w] == [])
  {
  }

  lemma HeadByte(b: Byte, w: Width, n: nat)
    requires WidthOf(b % 32) == Some(w) && Fits(w, n) && (w == 0 ==> n == b % 32)
    ensures b == b / 32 * 32 + Info(w, n)
  {
  }

  lemma HeadArgument(arg: seq<Byte>)
    requires arg != []
    ensures FromBigEndian(arg) < Pow256(|arg|) && BigEndian(FromBigEndian(arg), |arg|) == arg
  {
    FromBigEndianBound(arg);
    BigEndianInverse(arg);
  }

  lemma HeadSound(s: seq<Byte>)
    requires ReadHead(s).Some?
    ensures var HeadRead(major, w, n, rest) := ReadHead(s).value;
            Fits(w, n) && s == HeadOf(major, w, n) + rest
  {
    var HeadRead(major, w, n, rest) := ReadHead(s).value;
    ThreeParts(s, w);
    if w > 0 {
      HeadArgument(s[1..1 + w]);
      assert Fits(w, n) by { hide BigEndian, FromBigEndian; }
    }
    HeadByte(s[0], w, n);
    hide ReadHead, FromBigEndian, Info, Fits, WidthOf;
    assert BigEndian(n, w) == s[1..1 + w] by {
      if w == 0 { NoArgument(n); }
    }
  }

  lemma NoArgument(n: nat)
    ensures BigEndian(n, 0) == []
  {
  }

  function Major(i: Item): nat {
    match i
    case UintItem(_, _) => 0
    case NintItem(_, _) => 1
    case BytesItem(_, _) => 2
    case TextItem(_, _) => 3
    case ArrayItem(_, _) => 4
    case MapItem(_, _) => 5
    case TagItem(_, _, _) => 6
    case SimpleItem(_, _) => 7
  }

  /** The argument in an item's head. */
  function Argument(i: Item): nat {
    match i
    case UintItem(_, n) => n
    case NintItem(_, n) => n
    case BytesItem(_, d) => |d|
    case TextItem(_, d) => |d|
    case ArrayItem(_, items) => |items|
    case MapItem(_, items) => |items| / 2
    case TagItem(_, n, _) => n
    case SimpleItem(_, n) => n
  }

  /** What an item's encoding holds after its head. */
  function BodyOf(i: Item, depth: nat): seq<Byte>
    requires Valid(i, depth)
  {
    match i
    case BytesItem(_, d) => d
    case TextItem(_, d) => d
    case ArrayItem(_, items) => EncodeAll(items, depth + 1)
    case MapItem(_, items) => EncodeAll(items, depth + 1)
    case TagItem(_, _, inner) => Encode(inner, depth + 1)
    case _ => []
  }

  lemma EncodeIsHeadAndBody(i: Item, depth: nat)
    requires Valid(i, depth)
    ensures Fits(i.w, Argument(i)) && Encode(i, depth) == HeadOf(Major(i), i.w, Argument(i)) + BodyOf(i, depth)
  {
  }

  lemma TakeDrop(a: seq<Byte>, b: seq<Byte>)
    ensures (a + b)[..|a|] == a && (a + b)[|a|..] == b && (a == [] ==> a + b == b)
  {
  }

  lemma LeafBody(i: Item, depth: nat, rest: seq<Byte>)
    requires Valid(i, depth) && !i.ArrayItem? && !i.MapItem? && !i.TagItem?
    ensures ParseBody(HeadRead(Major(i), i.w, Argument(i), BodyOf(i, depth) + rest), depth) == Parsed(i, rest)
  {
    TakeDrop(BodyOf(i, depth), rest);
    LeafParsed(i, depth, BodyOf(i, depth), BodyOf(i, depth) + rest, rest);
  }

  lemma LeafParsed(i: Item, depth: nat, body: seq<Byte>, all: seq<Byte>, rest: seq<Byte>)
    requires Valid(i, depth) && !i.ArrayItem? && !i.MapItem? && !i.TagItem? && body == BodyOf(i, depth)
    requires |all| >= |body| && all[..|body|] == body && all[|body|..] == rest && (body == [] ==> all == rest)
    ensures ParseBody(HeadRead(Major(i), i.w, Argument(i), all), depth) == Parsed(i, rest)
  {
    hide Fits, Encode, EncodeAll, ParseItem, ParseItems;
    match i
    case UintItem(w, n) =>
    case NintItem(w, n) =>
    case BytesItem(w, d) => assert |d| == |body|;
    case TextItem(w, d) => assert |d| == |body|;
    case SimpleItem(w, n) =>
  }

  lemma ParseByHead(i: Item, depth: nat, rest: seq<Byte>)
    requires Valid(i, depth)
    ensures ParseItem(Encode(i, depth) + rest, depth)
         == ParseBody(HeadRead(Major(i), i.w, Argument(i), BodyOf(i, depth) + rest), depth)
  {
    hide ReadHead, HeadOf, Fits, Encode, EncodeAll, ParseBody, BodyOf, Argument;
    EncodeIsHeadAndBody(i, depth);
    Regroup(HeadOf(Major(i), i.w, Argument(i)), BodyOf(i, depth), rest);
    HeadRoundTrip(Major(i), i.w, Argument(i), BodyOf(i, depth) + rest);
  }

  /** Every item within the limits, in any of its encodings and followed by
      anything, is read back, and exactly its encoding is consumed. */
  lemma {:induction false} ParseEncode(i: Item, depth: nat, rest: seq<Byte>)
    requires Valid(i, depth)
    ensures ParseItem(Encode(i, depth) + rest, depth) == Parsed(i, rest)
    decreases i
  {
    hide ReadHead, HeadOf, Fits, Encode, EncodeAll, ParseItems, ParseItem;
    ParseByHead(i, depth, rest);
    if i.ArrayItem? || i.MapItem? {
      ParseEncodeAll(i.items, depth + 1, rest);
    } else if i.TagItem? {
      ParseEncode(i.inner, depth + 1, rest);
    } else {
      LeafBody(i, depth, rest);
    }
  }

  lemma {:induction false} ParseEncodeAll(items: seq<Item>, depth: nat, rest: seq<Byte>)
    requires AllValid(items, depth)
    ensures ParseItems(EncodeAll(items, depth) + rest, |items|, depth) == ParsedAll(items, rest)
    decreases items
  {
    hide ParseItem, Encode, Valid;
    if items == [] {
      assert EncodeAll(items, depth) + rest == rest;
    } else {
      var more := EncodeAll(items[1..], depth) + rest;
      Regroup(Encode(items[0], depth), EncodeAll(items[1..], depth), rest);
      ParseEncode(items[0], depth, more);
      ParseEncodeAll(items[1..], depth, rest);
      assert items == [items[0]] + items[1..];
    }
  }

  /** i is an item with head h whose body is the front of what follows the head. */
  predicate ParsedFrom(h: HeadRead, i: Item, more: seq<Byte>, depth: nat) {
    Valid(i, depth) && Major(i) == h.major && i.w == h.w && Argument(i) == h.n && h.rest == BodyOf(i, depth) + more
  }

  lemma {:induction false} BodySound(h: HeadRead, depth: nat)
    requires h.major < 8 && Fits(h.w, h.n) && depth <= MAX_DEPTH && ParseBody(h, depth).Parsed?
    ensures ParsedFrom(h, ParseBody(h, depth).item, ParseBody(h, depth).rest, depth)
    decreases |h.rest|, 2
  {
    hide Fits, Encode, EncodeAll, ParseItems, ParseItem, AllValid;
    var HeadRead(major, w, n, rest) := h;
    if major == 2 {
      assert rest == rest[..n] + rest[n..];
      assert ParsedFrom(h, BytesItem(w, rest[..n]), rest[n..], depth);
    } else if major == 3 {
      assert rest == rest[..n] + rest[n..];
      assert ParsedFrom(h, TextItem(w, rest[..n]), rest[n..], depth);
    } else if major == 4 {
      ParseSoundAll(rest, n, depth + 1);
      var ParsedAll(items, more) := ParseItems(rest, n, depth + 1);
      assert ParsedFrom(h, ArrayItem(w, items), more, depth);
    } else if major == 5 {
      ParseSoundAll(rest, 2 * n, depth + 1);
      var ParsedAll(items, more) := ParseItems(rest, 2 * n, depth + 1);
      assert ParsedFrom(h, MapItem(w, items), more, depth);
    } else if major == 6 {
      ParseSound(rest, depth + 1);
      var Parsed(inner, more) := ParseItem(rest, depth + 1);
      assert ParsedFrom(h, TagItem(w, n, inner), more, depth);
    } else {
      assert rest == [] + rest;
    }
  }

  /** Whatever is accepted is the encoding of an item within the limits. */
  lemma {:induction false} ParseSound(s: seq<Byte>, depth: nat)
    requires ParseItem(s, depth).Parsed?
    ensures var Parsed(i, rest) := ParseItem(s, depth);
            Valid(i, depth) && s == Encode(i, depth) + rest
    decreases |s|, 0
  {
    hide ReadHead, HeadOf, Fits, Encode, ParseBody, Valid;
    HeadSound(s);
    var h := ReadHead(s).value;
    BodySound(h, depth);
    var Parsed(i, more) := ParseBody(h, depth);
    EncodeIsHeadAndBody(i, depth);
    Regroup(HeadOf(h.major, h.w, h.n), BodyOf(i, depth), more);
  }

  lemma {:induction false} ParseSoundAll(s: seq<Byte>, count: nat, depth: nat)
    requires ParseItems(s, count, depth).ParsedAll?
    ensures var ParsedAll(items, rest) := ParseItems(s, count, depth);
            AllValid(items, depth) && s == EncodeAll(items, depth) + rest
    decreases |s|, 1
  {
    if count == 0 {
      assert s == EncodeAll([], depth) + s;
    } else {
      hide ParseItem, Encode, Valid;
      ParseSound(s, depth);
      var Parsed(item, rest) := ParseItem(s, depth);
      ParseSoundAll(rest, count - 1, depth);
      var ParsedAll(items, more) := ParseItems(rest, count - 1, depth);
      assert ([item] + items)[1..] == items;
      Regroup(Encode(item, depth), EncodeAll(items, depth), more);
    }
  }

  // ----- the parser itself -----------------------------------------------------------------------

  method ReadAdditional(data: seq<Byte>, start: nat, ai: nat) returns (ok: bool, pos: nat, n: nat)
    requires start <= |data| && ai < 32
    ensures ok <==> WidthOf(ai).Some? && start + WidthOf(ai).value <= |data|
    ensures ok ==> pos == start + WidthOf(ai).value
                   && n == if ai <= 23 then ai else FromBigEndian(data[start..pos])
  {
    ok, pos, n := true, start, 0;
    if ai <= 23 {
      return true, start, ai;
    }
    var size := if ai == 24 then 1 else if ai == 25 then 2 else if ai == 26 then 4 else 8;
    if ai > 27 || pos + size > |data| {
      return false, start, 0;
    }
    for i := 0 to size
      invariant n == FromBigEndian(data[start..start + i])
    {
      assert data[start..start + i + 1][..i] == data[start..start + i];
      n := 256 * n + data[start + i] as int;
    }
    pos := start + size;
  }

  /** Parses one item at start; pos is where it ends. */
  method Parse(data: seq<Byte>, start: nat, depth: nat) returns (ok: bool, pos: nat, out: Val)
    requires start <= |data|
    ensures ok <==> ParseItem(data[start..], depth).Parsed?
    ensures ok ==> var Parsed(item, rest) := ParseItem(data[start..], depth);
                   start < pos <= |data| && rest == data[pos..] && out == Meaning(item)
    decreases if depth > MAX_DEPTH then 0 else MAX_DEPTH + 1 - depth, 0
  {
    hide ReadHead, ParseBody, Meaning, FromBigEndian;
    ok, pos, out := false, start, Other;
    if depth > MAX_DEPTH || start >= |data| {
      NothingToRead(data, start);
      return;
    }
    var major, ai := data[start] / 32, data[start] % 32;
    var n;
    ok, pos, n := ReadAdditional(data, start + 1, ai);
    HeadAt(data, start);
    if ok {
      ok, pos, out := ParseContent(data, pos, major, WidthOf(ai).value, n, depth);
    }
  }

  lemma NothingToRead(data: seq<Byte>, start: nat)
    ensures start == |data| ==> ReadHead(data[start..]).None?
  {
  }

  /** A byte or text string of n bytes. */
  method ReadString(data: seq<Byte>, start: nat, n: nat, text: bool) returns (ok: bool, pos: nat, out: Val)
    requires start <= |data|
    ensures ok <==> n <= MAX_STRING && n <= |data[start..]|
    ensures ok ==> start <= pos <= |data| && data[pos..] == data[start..][n..]
                   && out == if text then TextString(data[start..][..n]) else ByteString(data[start..][..n])
  {
    ok, pos, out := false, start, Other;
    if n > MAX_STRING || start + n > |data| {
      return;
    }
    assert data[start..][..n] == data[start..start + n] && data[start..][n..] == data[start + n..];
    ok, pos := true, start + n;
    out := if text then TextString(data[start..start + n]) else ByteString(data[start..start + n]);
  }

  /** count items, unless the size is over its limit. */
  method ParseUpTo(data: seq<Byte>, start: nat, size: nat, count: nat, limit: nat, depth: nat)
    returns (ok: bool, pos: nat, vals: seq<Val>)
    requires start <= |data|
    ensures ok <==> size <= limit && ParseItems(data[start..], count, depth).ParsedAll?
    ensures ok ==> var ParsedAll(items, rest) := ParseItems(data[start..], count, depth);
                   start <= pos <= |data| && rest == data[pos..] && vals == Meanings(items)
    decreases if depth > MAX_DEPTH then 0 else MAX_DEPTH + 1 - depth, 2
  {
    ok, pos, vals := size <= limit, start, [];
    if ok {
      ok, pos, vals := ParseMany(data, start, count, depth);
    }
  }

  /** The switch on the major type. */
  method ParseContent(data: seq<Byte>, start: nat, major: nat, ghost w: Width, n: nat, depth: nat)
    returns (ok: bool, pos: nat, out: Val)
    requires start <= |data| && major < 8 && depth <= MAX_DEPTH
    ensures ok <==> ParseBody(HeadRead(major, w, n, data[start..]), depth).Parsed?
    ensures ok ==> var Parsed(item, rest) := ParseBody(HeadRead(major, w, n, data[start..]), depth);
                   start <= pos <= |data| && rest == data[pos..] && out == Meaning(item)
    decreases MAX_DEPTH - depth, 3
  {
    hide ParseItems, ParseItem, Meanings;
    ok, pos, out := true, start, Other;
    if major == 0 {
      out := Uint(n);
    } else if major == 1 {
      out := Nint(n);
    } else if major == 2 || major == 3 {
      ok, pos, out := ReadString(data, start, n, major == 3);
    } else if major == 4 {
      var items;
      ok, pos, items := ParseUpTo(data, start, n, n, MAX_ARRAY, depth + 1);
      out := Array(items);
    } else if major == 5 {
      var items;
      ok, pos, items := ParseUpTo(data, start, n, 2 * n, MAX_MAP, depth + 1);
      out := Map(items);
    } else if major == 6 {
      var inner;
      ok, pos, inner := Parse(data, start, depth + 1);
    }
  }

  lemma HeadAt(data: seq<Byte>, start: nat)
    requires start < |data|
    ensures var s, w := data[start..], WidthOf(data[start] % 32);
            ReadHead(s) == if w.None? || start + 1 + w.value > |data| then None
                           else Some(HeadRead(data[start] / 32, w.value,
                                              if data[start] % 32 <= 23 then data[start] % 32
                                              else FromBigEndian(data[start + 1..start + 1 + w.value]),
                                              data[start + 1 + w.value..]))
  {
    var s, w := data[start..], WidthOf(data[start] % 32);
    if w.Some? && start + 1 + w.value <= |data| {
      assert s[1..1 + w.value] == data[start + 1..start + 1 + w.value]
              && s[1 + w.value..] == data[start + 1 + w.value..];
    }
  }

  function Prepend(done: seq<Item>, r: ParsedAll): ParsedAll {
    if r.FailedAll? then FailedAll else ParsedAll(done + r.items, r.rest)
  }

  /** The loops over array elements and over map keys and values. */
  method ParseMany(data: seq<Byte>, start: nat, count: nat, depth: nat) returns (ok: bool, pos: nat, vals: seq<Val>)
    requires start <= |data|
    ensures ok <==> ParseItems(data[start..], count, depth).ParsedAll?
    ensures ok ==> var ParsedAll(items, rest) := ParseItems(data[start..], count, depth);
                   start <= pos <= |data| && rest == data[pos..] && vals == Meanings(items)
    decreases if depth > MAX_DEPTH then 0 else MAX_DEPTH + 1 - depth, 1
  {
    pos, vals := start, [];
    ghost var done: seq<Item> := [];
    PrependNone(ParseItems(data[start..], count, depth));
    for i := 0 to count
      invariant start <= pos <= |data| && vals == Meanings(done)
      invariant ParseItems(data[start..], count, depth) == Prepend(done, ParseItems(data[pos..], count - i, depth))
    {
      ghost var item := ParseItem(data[pos..], depth);
      var v;
      ghost var before := pos;
      ok, pos, v := Parse(data, pos, depth);
      if !ok {
        return;
      }
      PrependOne(done, item.item, ParseItems(data[pos..], count - i - 1, depth));
      done := done + [item.item];
      vals := vals + [v];
    }
    assert done + [] == done;
    ok := true;
  }

  lemma PrependNone(r: ParsedAll)
    ensures Prepend([], r) == r
  {
    if r.ParsedAll? {
      assert [] + r.items == r.items;
    }
  }

  lemma PrependOne(done: seq<Item>, item: Item, r: ParsedAll)
    ensures Prepend(done, Prepend([item], r)) == Prepend(done + [item], r)
    ensures Meanings(done + [item]) == Meanings(done) + [Meaning(item)]
  {
    if r.ParsedAll? {
      assert done + ([item] + r.items) == (done + [item]) + r.items;
    }
    MeaningsAppend(done, item);
  }

  lemma {:induction false} MeaningsAppend(done: seq<Item>, item: Item)
    ensures Meanings(done + [item]) == Meanings(done) + [Meaning(item)]
  {
    if done == [] {
      assert done + [item] == [item] && [item][1..] == [];
    } else {
      MeaningsAppend(done[1..], item);
      assert (done + [item])[1..] == done[1..] + [item];
    }
  }
}
