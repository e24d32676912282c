/**
 The MessagePack codec: `Wire` is one concrete encoding (every format and width spelled out),
 `Value` is what it means. The `mp_*` routines are modelled twice: as functions from the
 unread suffix to the result and the new suffix, and (in MsgpackCode) as cursor-moving methods.
 */
module Msgpack {
  import opened Wrappers

  type byte = b: int | 0 <= b < 256
  type bytes = seq<byte>

  /** The bytes of a text of ASCII characters. */
  function Ascii(text: string): (s: bytes)
    ensures |s| == |text|
  {
    seq(|text|, i requires 0 <= i < |text| => text[i] as int % 256)
  }

  const TWO32: nat := 0x1_0000_0000
  const TWO64: nat := 0x1_0000_0000_0000_0000

  // ---------------------------------------------------------------- big-endian numbers

  function Cap(k: nat): (c: nat)
    ensures c > 0
  {
    if k == 0 then 1 else 256 * Cap(k - 1)
  }

  function BE(n: nat, k: nat): (s: bytes)
    ensures |s| == k
    decreases k
  {
    if k == 0 then [] else BE(n / 256, k - 1) + [n % 256]
  }

  function UnBE(s: bytes): (n: nat)
  {
    if s == [] then 0 else UnBE(s[..|s| - 1]) * 256 + s[|s| - 1]
  }

  lemma Caps()
    ensures Cap(1) == 0x100 && Cap(2) == 0x1_0000 && Cap(4) == TWO32 && Cap(8) == TWO64
  {
    assert Cap(3) == 256 * Cap(2);
    assert Cap(5) == 256 * Cap(4);
    assert Cap(6) == 256 * Cap(5);
    assert Cap(7) == 256 * Cap(6);
  }

  /** Writing a number in k bytes and reading it back is the identity below 256^k. */
  lemma {:induction false} UnBEofBE(n: nat, k: nat)
    requires n < Cap(k)
    ensures UnBE(BE(n, k)) == n
    decreases k
  {
    if k > 0 {
      UnBEofBE(n / 256, k - 1);
      assert BE(n, k)[..k - 1] == BE(n / 256, k - 1);
    }
  }

  /** Reading k bytes and writing the number back is the identity on the bytes. */
  lemma {:induction false} BEofUnBE(s: bytes)
    ensures UnBE(s) < Cap(|s|)
    ensures BE(UnBE(s), |s|) == s
  {
    if s != [] {
      BEofUnBE(s[..|s| - 1]);
      assert s == s[..|s| - 1] + [s[|s| - 1]];
    }
  }

  lemma UnBE1(s: bytes)
    requires |s| == 1
    ensures UnBE(s) == s[0]
  {
    assert s[..0] == [];
  }

  lemma UnBE2(s: bytes)
    requires |s| == 2
    ensures UnBE(s) == s[0] as int * 0x100 + s[1]
  {
    UnBE1(s[..1]);
  }

  lemma UnBE4(s: bytes)
    requires |s| == 4
    ensures UnBE(s) == s[0] as int * 0x100_0000 + s[1] as int * 0x1_0000 + s[2] as int * 0x100 + s[3]
  {
    UnBE2(s[..2]);
    assert s[..3][..2] == s[..2];
    assert UnBE(s[..3]) == UnBE(s[..2]) * 256 + s[2];
  }

  // ---------------------------------------------------------------- formats

  /** The four length-prefixed families. */
  datatype Kind = StrK | BinK | ArrK | MapK

  /** One concrete encoding. `width` is the number of length bytes; 0 is the fix form.
      The items of a map alternate keys and values. */
  datatype Wire =
    | Scalar(tag: byte, body: bytes)
    | Str(width: nat, data: bytes)
    | Bin(width: nat, data: bytes)
    | Arr(width: nat, items: seq<Wire>)
    | Map(width: nat, items: seq<Wire>)

  /** What an encoding means. Unsigned and signed integer families stay apart,
      because the drivers only read the unsigned one. */
  datatype Value =
    | Nil
    | Bool(b: bool)
    | UInt(n: nat)
    | SInt(i: int)
    | Text(s: bytes)
    | Blob(s: bytes)
    | List(vs: seq<Value>)
    | Dict(vs: seq<Value>)

  function FixBase(k: Kind): byte {
    match k case StrK => 0xa0 case BinK => 0xc4 case ArrK => 0x90 case MapK => 0x80
  }

  function FixMax(k: Kind): nat {
    match k case StrK => 31 case BinK => 0 case ArrK => 15 case MapK => 15
  }

  function WideTag(k: Kind, width: nat): byte {
    match k
    case StrK => if width == 1 then 0xd9 else if width == 2 then 0xda else 0xdb
    case BinK => if width == 1 then 0xc4 else if width == 2 then 0xc5 else 0xc6
    case ArrK => if width == 2 then 0xdc else 0xdd
    case MapK => if width == 2 then 0xde else 0xdf
  }

  predicate HeadOk(k: Kind, width: nat, n: nat) {
    || (width == 0 && k != BinK && n <= FixMax(k))
    || (width == 1 && (k == StrK || k == BinK) && n < 0x100)
    || (width == 2 && n < 0x1_0000)
    || (width == 4 && n < TWO32)
  }

  function Head(k: Kind, width: nat, n: nat): (h: bytes)
    ensures |h| == 1 + width
  {
    if width == 0 then [(FixBase(k) + n) % 256] else [WideTag(k, width)] + BE(n, width)
  }

  /** The family and length width a leading byte announces, if it is length-prefixed. */
  function KindOf(c: byte): Option<(Kind, nat)> {
    if 0xa0 <= c <= 0xbf then Some((StrK, 0))
    else if 0x90 <= c <= 0x9f then Some((ArrK, 0))
    else if 0x80 <= c <= 0x8f then Some((MapK, 0))
    else if c == 0xd9 then Some((StrK, 1))
    else if c == 0xda then Some((StrK, 2))
    else if c == 0xdb then Some((StrK, 4))
    else if c == 0xc4 then Some((BinK, 1))
    else if c == 0xc5 then Some((BinK, 2))
    else if c == 0xc6 then Some((BinK, 4))
    else if c == 0xdc then Some((ArrK, 2))
    else if c == 0xdd then Some((ArrK, 4))
    else if c == 0xde then Some((MapK, 2))
    else if c == 0xdf then Some((MapK, 4))
    else None
  }

  predicate ScalarTag(c: byte) {
    c <= 0x7f || c >= 0xe0 || c == 0xc0 || c == 0xc2 || c == 0xc3 || 0xcc <= c <= 0xd3
  }

  function ScalarLen(c: byte): nat {
    if c == 0xcc || c == 0xd0 then 1
    else if c == 0xcd || c == 0xd1 then 2
    else if c == 0xce || c == 0xd2 then 4
    else if c == 0xcf || c == 0xd3 then 8
    else 0
  }

  predicate Valid(w: Wire)
    decreases w, 0
  {
    match w
    case Scalar(tag, body) => ScalarTag(tag) && |body| == ScalarLen(tag)
    case Str(width, data) => HeadOk(StrK, width, |data|)
    case Bin(width, data) => HeadOk(BinK, width, |data|)
    case Arr(width, items) => HeadOk(ArrK, width, |items|) && AllValid(items)
    case Map(width, items) => |items| % 2 == 0 && HeadOk(MapK, width, |items| / 2) && AllValid(items)
  }

  predicate AllValid(ws: seq<Wire>)
    decreases ws, 1
  {
    forall i :: 0 <= i < |ws| ==> Valid(ws[i])
  }

  function Bytes(w: Wire): (s: bytes)
    ensures |s| > 0
    decreases w, 0
  {
    match w
    case Scalar(tag, body) => [tag] + body
    case Str(width, data) => Head(StrK, width, |data|) + data
    case Bin(width, data) => Head(BinK, width, |data|) + data
    case Arr(width, items) => Head(ArrK, width, |items|) + BytesAll(items)
    case Map(width, items) => Head(MapK, width, |items| / 2) + BytesAll(items)
  }

  function BytesAll(ws: seq<Wire>): (s: bytes)
    ensures ws != [] ==> |s| > 0
    decreases ws, 0
  {
    if ws == [] then [] else Bytes(ws[0]) + BytesAll(ws[1..])
  }

  lemma {:induction false} BytesAllAppend(a: seq<Wire>, b: seq<Wire>)
    ensures BytesAll(a + b) == BytesAll(a) + BytesAll(b)
    decreases |a|
  {
    if a == [] {
      assert a + b == b;
    } else {
      assert (a + b)[1..] == a[1..] + b;
      BytesAllAppend(a[1..], b);
    }
  }

  function Signed(n: nat, width: nat): int {
    if 2 * n < Cap(width) then n else n - Cap(width)
  }

  function Meaning(w: Wire): Value
    decreases w, 0
  {
    match w
    case Scalar(tag, body) =>
      if tag <= 0x7f then UInt(tag)
      else if tag >= 0xe0 then SInt(tag - 256)
      else if tag == 0xc2 then Bool(false)
      else if tag == 0xc3 then Bool(true)
      else if 0xcc <= tag <= 0xcf then UInt(UnBE(body))
      else if 0xd0 <= tag <= 0xd3 then SInt(Signed(UnBE(body), |body|))
      else Nil
    case Str(_, data) => Text(data)
    case Bin(_, data) => Blob(data)
    case Arr(_, items) => List(Meanings(items))
    case Map(_, items) => Dict(Meanings(items))
  }

  function Meanings(ws: seq<Wire>): (vs: seq<Value>)
    ensures |vs| == |ws|
    ensures forall i :: 0 <= i < |ws| ==> vs[i] == Meaning(ws[i])
    decreases ws, 1
  {
    seq(|ws|, i requires 0 <= i < |ws| => Meaning(ws[i]))
  }

  // ---------------------------------------------------------------- decoders on the unread suffix

  /** `mp_decode_uint`: a byte of any other format reads as 0 and is stepped over. */
  function DecodeUint(s: bytes): Option<(nat, bytes)> {
    if s == [] then None
    else if s[0] <= 0x7f then Some((s[0] as nat, s[1..]))
    else if 0xcc <= s[0] <= 0xcf then
      var w := ScalarLen(s[0]);
      if |s| < 1 + w then None else Some((UnBE(s[1..1 + w]), s[1 + w..]))
    else Some((0, s[1..]))
  }

  /** The number in the `w` bytes behind the tag. */
  function ReadBE(s: bytes, w: nat): (r: Option<(nat, bytes)>)
    requires s != []
    ensures r.Some? ==> |r.value.1| < |s| && r.value.0 < Cap(w)
  {
    if |s| < 1 + w then None
    else
      BEofUnBE(s[1..1 + w]);
      Some((UnBE(s[1..1 + w]), s[1 + w..]))
  }

  /** The length part of `mp_decode_str`, `mp_decode_array` and `mp_decode_map`. */
  function DecodeHead(k: Kind, s: bytes): (r: Option<(nat, bytes)>)
    ensures r.Some? ==> |r.value.1| < |s| && r.value.0 < TWO32
  {
    if s == [] then None
    else match KindOf(s[0])
      case None => Some((0, s[1..]))
      case Some((k', w)) =>
        if k' != k then Some((0, s[1..]))
        else if w == 0 then Some(((s[0] - FixBase(k)) as nat, s[1..]))
        else Caps(); ReadBE(s, w)
  }

  function DecodeStr(s: bytes): (r: Option<(bytes, bytes)>)
    ensures r.Some? ==> |r.value.1| < |s|
  {
    var (n, t) :- DecodeHead(StrK, s);
    if n <= |t| then Some((t[..n], t[n..])) else None
  }

  function Drop(s: bytes, n: nat): (r: Option<bytes>)
    ensures r.Some? ==> |r.value| == |s| - n
  {
    if n <= |s| then Some(s[n..]) else None
  }

  /** `mp_next`: unknown formats (floats, ext) are stepped over by one byte only, the step over a string or
      blob (its length bytes and its data) is added up in 32 bits, and so is a map's item count. */
  function Next(s: bytes): (r: Option<bytes>)
    ensures r.Some? ==> |r.value| < |s|
    decreases |s|, 0
  {
    if s == [] then None
    else match KindOf(s[0])
      case None => Drop(s, 1 + ScalarLen(s[0]))
      case Some((k, w)) =>
        var (n, t) :- DecodeHead(k, s);
        match k
        case StrK => Drop(s[1..], (w + n) % TWO32)
        case BinK => Drop(s[1..], (w + n) % TWO32)
        case ArrK => NextN(t, n)
        case MapK => NextN(t, 2 * n % TWO32)
  }

  /** n successive calls of `mp_next`. */
  function NextN(s: bytes, n: nat): (r: Option<bytes>)
    ensures r.Some? ==> |r.value| <= |s|
    decreases |s|, 1
  {
    if n == 0 then Some(s)
    else
      var t :- Next(s);
      NextN(t, n - 1)
  }

  /** The reference reader: the encoding at the front, in full, or None. */
  function Parse(s: bytes): (r: Option<(Wire, bytes)>)
    ensures r.Some? ==> |r.value.1| < |s|
    decreases |s|, 0
  {
    if s == [] then None
    else match KindOf(s[0])
      case None =>
        if ScalarTag(s[0]) && 1 + ScalarLen(s[0]) <= |s| then
          Some((Scalar(s[0], s[1..1 + ScalarLen(s[0])]), s[1 + ScalarLen(s[0])..]))
        else None
      case Some((k, w)) =>
        var (n, t) :- DecodeHead(k, s);
        match k
        case StrK => if n <= |t| then Some((Str(w, t[..n]), t[n..])) else None
        case BinK => if n <= |t| then Some((Bin(w, t[..n]), t[n..])) else None
        case ArrK => (var (items, u) :- ParseN(t, n); Some((Arr(w, items), u)))
        case MapK => (var (items, u) :- ParseN(t, 2 * n); Some((Map(w, items), u)))
  }

  function ParseN(s: bytes, n: nat): (r: Option<(seq<Wire>, bytes)>)
    ensures r.Some? ==> |r.value.1| <= |s| && |r.value.0| == n
    decreases |s|, 1
  {
    if n == 0 then Some(([], s))
    else
      var (w, t) :- Parse(s);
      var (ws, u) :- ParseN(t, n - 1);
      Some(([w] + ws, u))
  }

  // ---------------------------------------------------------------- round trips

  lemma ReadBEAt(tag: byte, n: nat, w: nat, rest: bytes)
    requires n < Cap(w)
    ensures ReadBE([tag] + BE(n, w) + rest, w) == Some((n, rest))
  {
    hide UnBE, BE, Cap;
    var s := [tag] + BE(n, w) + rest;
    UnBEofBE(n, w);
    assert s[1..1 + w] == BE(n, w);
    assert s[1 + w..] == rest;
  }

  lemma HeadRoundTrip(k: Kind, width: nat, n: nat, rest: bytes)
    requires HeadOk(k, width, n)
    ensures var s := Head(k, width, n) + rest;
            KindOf(s[0]) == Some((k, width)) && DecodeHead(k, s) == Some((n, rest))
  {
    hide ReadBE, BE, Cap;
    var s := Head(k, width, n) + rest;
    if width > 0 {
      Caps();
      ReadBEAt(WideTag(k, width), n, width, rest);
      assert s[0] == WideTag(k, width);
    } else {
      assert s[0] == FixBase(k) + n;
      assert s[1..] == rest;
    }
  }

  /** What the reference reader does behind a head. */
  function ParseTail(k: Kind, w: nat, n: nat, t: bytes): Option<(Wire, bytes)> {
    match k
    case StrK => if n <= |t| then Some((Str(w, t[..n]), t[n..])) else None
    case BinK => if n <= |t| then Some((Bin(w, t[..n]), t[n..])) else None
    case ArrK => (var (items, u) :- ParseN(t, n); Some((Arr(w, items), u)))
    case MapK => (var (items, u) :- ParseN(t, 2 * n); Some((Map(w, items), u)))
  }

  lemma ParseAtHead(k: Kind, w: nat, n: nat, t: bytes)
    requires HeadOk(k, w, n)
    ensures Parse(Head(k, w, n) + t) == ParseTail(k, w, n, t)
  {
    HeadRoundTrip(k, w, n, t);
  }

  lemma ParseAtScalar(tag: byte, body: bytes, rest: bytes)
    requires ScalarTag(tag) && |body| == ScalarLen(tag)
    ensures Parse([tag] + body + rest) == Some((Scalar(tag, body), rest))
  {
    hide ParseN, DecodeHead;
    var s := [tag] + body + rest;
    assert s[0] == tag && KindOf(tag) == None;
    assert s[1..1 + |body|] == body && s[1 + |body|..] == rest;
  }

  lemma Split(a: bytes, b: bytes)
    ensures (a + b)[..|a|] == a && (a + b)[|a|..] == b
  {
  }

  lemma ParseAtBlob(k: Kind, w: nat, data: bytes, rest: bytes)
    requires HeadOk(k, w, |data|) && (k == StrK || k == BinK)
    ensures Parse(Head(k, w, |data|) + data + rest)
         == Some((if k == StrK then Str(w, data) else Bin(w, data), rest))
  {
    hide Parse, Head;
    ParseAtHead(k, w, |data|, data + rest);
    Split(data, rest);
    assert Head(k, w, |data|) + data + rest == Head(k, w, |data|) + (data + rest);
  }

  lemma {:induction false} ParseAtItems(k: Kind, w: nat, n: nat, items: seq<Wire>, rest: bytes)
    requires (k == ArrK && n == |items|) || (k == MapK && 2 * n == |items|)
    requires HeadOk(k, w, n) && AllValid(items)
    ensures Parse(Head(k, w, n) + BytesAll(items) + rest)
         == Some((if k == ArrK then Arr(w, items) else Map(w, items), rest))
    decreases items, 1
  {
    hide Parse, ParseN, Head, BytesAll;
    ParseAtHead(k, w, n, BytesAll(items) + rest);
    ParseBytesAll(items, rest);
    assert Head(k, w, n) + BytesAll(items) + rest == Head(k, w, n) + (BytesAll(items) + rest);
  }

  /** Every valid encoding, followed by anything, is read back whole. */
  lemma {:induction false} ParseBytes(w: Wire, rest: bytes)
    requires Valid(w)
    ensures Parse(Bytes(w) + rest) == Some((w, rest))
    decreases w, 0
  {
    hide Parse, Head, BytesAll;
    match w
    case Scalar(tag, body) => ParseAtScalar(tag, body, rest);
    case Str(width, data) => ParseAtBlob(StrK, width, data, rest);
    case Bin(width, data) => ParseAtBlob(BinK, width, data, rest);
    case Arr(width, items) => ParseAtItems(ArrK, width, |items|, items, rest);
    case Map(width, items) => ParseAtItems(MapK, width, |items| / 2, items, rest);
  }

  lemma {:induction false} ParseBytesAll(ws: seq<Wire>, rest: bytes)
    requires AllValid(ws)
    ensures ParseN(BytesAll(ws) + rest, |ws|) == Some((ws, rest))
    decreases ws, 0
  {
    hide Parse, Bytes;
    if ws == [] {
      assert BytesAll(ws) + rest == rest;
    } else {
      assert BytesAll(ws) + rest == Bytes(ws[0]) + (BytesAll(ws[1..]) + rest);
      ParseBytes(ws[0], BytesAll(ws[1..]) + rest);
      ParseBytesAll(ws[1..], rest);
      assert ws == [ws[0]] + ws[1..];
    }
  }

  lemma ReadBEBytes(s: bytes, w: nat)
    requires s != [] && ReadBE(s, w).Some?
    ensures s == [s[0]] + BE(ReadBE(s, w).value.0, w) + ReadBE(s, w).value.1
  {
    hide UnBE, BE, Cap;
    BEofUnBE(s[1..1 + w]);
    assert s == [s[0]] + s[1..1 + w] + s[1 + w..];
  }

  lemma HeadOfDecode(s: bytes)
    requires s != [] && KindOf(s[0]).Some?
    ensures var (k, w) := KindOf(s[0]).value;
            DecodeHead(k, s).Some? ==>
              var (n, t) := DecodeHead(k, s).value;
              HeadOk(k, w, n) && s == Head(k, w, n) + t
  {
    hide ReadBE, BE, Cap;
    var (k, w) := KindOf(s[0]).value;
    Caps();
    if w > 0 && ReadBE(s, w).Some? {
      ReadBEBytes(s, w);
      assert s[0] == WideTag(k, w);
    } else {
      assert s == [s[0]] + s[1..];
    }
  }

  /** Conversely, whatever the reader accepts is the encoding it returns. */
  lemma {:induction false} BytesOfParse(s: bytes)
    requires Parse(s).Some?
    ensures Valid(Parse(s).value.0)
    ensures s == Bytes(Parse(s).value.0) + Parse(s).value.1
    decreases |s|, 0
  {
    hide ParseN;
    match KindOf(s[0])
    case None =>
    case Some((k, w)) =>
      HeadOfDecode(s);
      var (n, t) := DecodeHead(k, s).value;
      BytesOfParseTail(k, w, n, t);
      var (x, u) := ParseTail(k, w, n, t).value;
      assert Parse(s) == Some((x, u));
  }

  lemma {:induction false} BytesOfParseTail(k: Kind, w: nat, n: nat, t: bytes)
    requires HeadOk(k, w, n) && ParseTail(k, w, n, t).Some?
    ensures var (x, u) := ParseTail(k, w, n, t).value; Valid(x) && Head(k, w, n) + t == Bytes(x) + u
    decreases |t|, 2
  {
    hide ParseN, Head, BytesAll;
    match k
    case StrK => assert t == t[..n] + t[n..];
    case BinK => assert t == t[..n] + t[n..];
    case ArrK => BytesOfParseN(t, n);
    case MapK => BytesOfParseN(t, 2 * n);
  }

  lemma {:induction false} BytesOfParseN(s: bytes, n: nat)
    requires ParseN(s, n).Some?
    ensures AllValid(ParseN(s, n).value.0)
    ensures s == BytesAll(ParseN(s, n).value.0) + ParseN(s, n).value.1
    decreases |s|, 1
  {
    hide Parse, Bytes;
    if n > 0 {
      BytesOfParse(s);
      var (w, t) := Parse(s).value;
      BytesOfParseN(t, n - 1);
      var (ws, u) := ParseN(t, n - 1).value;
      assert ([w] + ws)[1..] == ws;
    }
  }

  // ---------------------------------------------------------------- what mp_next skips

  /** Some step over the tree does not fit 32 bits: a map with 2^31 or more pairs, or a string or blob of
      2^32 - 4 or more bytes. */
  predicate Wide(w: Wire)
    decreases w, 0
  {
    match w
    case Scalar(_, _) => false
    case Str(_, data) => |data| + 4 >= TWO32
    case Bin(_, data) => |data| + 4 >= TWO32
    case Arr(_, items) => exists i :: 0 <= i < |items| && Wide(items[i])
    case Map(_, items) => |items| >= TWO32 || exists i :: 0 <= i < |items| && Wide(items[i])
  }

  /** A byte that is a whole encoding: every ASCII character is. */
  predicate Single(b: byte) { ScalarTag(b) && ScalarLen(b) == 0 }

  predicate Singles(s: bytes) {
    forall i :: 0 <= i < |s| ==> Single(s[i])
  }

  /** Strings and blobs too long to be stepped over hold one-byte encodings only, such as ASCII text. */
  predicate Plain(w: Wire)
    decreases w, 0
  {
    match w
    case Scalar(_, _) => true
    case Str(_, data) => Wide(w) ==> Singles(data)
    case Bin(_, data) => Wide(w) ==> Singles(data)
    case Arr(_, items) => AllPlain(items)
    case Map(_, items) => AllPlain(items)
  }

  predicate AllPlain(ws: seq<Wire>)
    decreases ws, 1
  {
    forall i :: 0 <= i < |ws| ==> Plain(ws[i])
  }

  /** What `mp_next` does behind the tag and the length bytes of a head. */
  function NextTail(k: Kind, w: nat, n: nat, t: bytes): Option<bytes> {
    match k
    case StrK => Drop(BE(n, w) + t, (w + n) % TWO32)
    case BinK => Drop(BE(n, w) + t, (w + n) % TWO32)
    case ArrK => NextN(t, n)
    case MapK => NextN(t, 2 * n % TWO32)
  }

  lemma NextAtHead(k: Kind, w: nat, n: nat, t: bytes)
    requires HeadOk(k, w, n)
    ensures Next(Head(k, w, n) + t) == NextTail(k, w, n, t)
  {
    hide NextN, Head, BE, DecodeHead, Drop;
    HeadRoundTrip(k, w, n, t);
    BehindTag(k, w, n, t);
  }

  lemma BehindTag(k: Kind, w: nat, n: nat, t: bytes)
    requires HeadOk(k, w, n)
    ensures (Head(k, w, n) + t)[1..] == BE(n, w) + t
  {
    hide BE;
    if w == 0 {
      NoDigits(n);
    }
  }

  lemma NoDigits(n: nat)
    ensures BE(n, 0) == []
  {
  }

  lemma NextAtScalar(tag: byte, body: bytes, rest: bytes)
    requires ScalarTag(tag) && |body| == ScalarLen(tag)
    ensures Next([tag] + body + rest) == Some(rest)
  {
    hide NextN, DecodeHead;
    var s := [tag] + body + rest;
    assert s[0] == tag && KindOf(tag) == None;
    assert s[1 + |body|..] == rest;
  }

  predicate AnyWide(ws: seq<Wire>, k: nat)
    requires k <= |ws|
  {
    exists i :: 0 <= i < k && Wide(ws[i])
  }

  /** Skipping k of the encodings ws leaves a list of whole encodings: exactly ws[k..] when none of the
      first k is wide, and strictly more otherwise. */
  lemma {:induction false} SkipAll(ws: seq<Wire>, k: nat, rest: bytes) returns (left: seq<Wire>)
    requires AllValid(ws) && AllPlain(ws) && k <= |ws|
    ensures AllValid(left) && AllPlain(left) && |left| >= |ws| - k
    ensures NextN(BytesAll(ws) + rest, k) == Some(BytesAll(left) + rest)
    ensures if AnyWide(ws, k) then |left| > |ws| - k else left == ws[k..]
    ensures |BytesAll(left)| <= |BytesAll(ws)|
    decreases |BytesAll(ws)|, 2
  {
    hide Next, Bytes, Wide, Plain, Valid;
    if k == 0 {
      left := ws;
    } else {
      var after := SkipOne(ws[0], ws[1..], rest);
      assert BytesAll(ws) + rest == Bytes(ws[0]) + (BytesAll(ws[1..]) + rest);
      left := SkipAll(after, k - 1, rest);
      if !Wide(ws[0]) {
        assert ws[1..][k - 1..] == ws[k..];
        WideStep(ws, k);
      }
    }
  }

  lemma WideStep(ws: seq<Wire>, k: nat)
    requires 0 < k <= |ws| && !Wide(ws[0])
    ensures AnyWide(ws, k) <==> AnyWide(ws[1..], k - 1)
  {
    hide Wide;
    if AnyWide(ws, k) {
      var i :| 0 <= i < k && Wide(ws[i]);
      assert ws[1..][i - 1] == ws[i];
    }
  }

  lemma {:induction false} SkipOne(w: Wire, tail: seq<Wire>, rest: bytes) returns (after: seq<Wire>)
    requires Valid(w) && AllValid(tail) && Plain(w) && AllPlain(tail)
    ensures AllValid(after) && AllPlain(after) && |after| >= |tail|
    ensures Next(Bytes(w) + (BytesAll(tail) + rest)) == Some(BytesAll(after) + rest)
    ensures |BytesAll(after)| < |Bytes(w)| + |BytesAll(tail)|
    ensures if Wide(w) then |after| > |tail| else after == tail
    decreases |Bytes(w)| + |BytesAll(tail)|, 1
  {
    hide Next, NextN, Head, BytesAll;
    match w
    case Scalar(tag, body) =>
      NextAtScalar(tag, body, BytesAll(tail) + rest);
      after := tail;
    case Str(width, data) =>
      after := SkipBlob(StrK, width, data, tail, rest);
    case Bin(width, data) =>
      after := SkipBlob(BinK, width, data, tail, rest);
    case Arr(width, items) =>
      after := SkipItems(ArrK, width, items, |items|, tail, rest);
    case Map(width, items) =>
      after := SkipItems(MapK, width, items, |items| / 2, tail, rest);
  }

  /** A string or blob whose step fits 32 bits is stepped over whole. */
  lemma NextAtBlob(k: Kind, w: nat, data: bytes, rest: bytes)
    requires HeadOk(k, w, |data|) && (k == StrK || k == BinK) && |data| + 4 < TWO32
    ensures Next(Head(k, w, |data|) + data + rest) == Some(rest)
  {
    hide Next, Head, BE, NextN;
    assert (w + |data|) % TWO32 == w + |data|;
    NextAtHead(k, w, |data|, data + rest);
    Grouped(Head(k, w, |data|), data, rest);
    Behind(BE(|data|, w), data, rest);
  }

  lemma Grouped(a: bytes, b: bytes, c: bytes)
    ensures a + b + c == a + (b + c)
  {
  }

  lemma Behind(a: bytes, b: bytes, c: bytes)
    ensures (a + (b + c))[|a| + |b|..] == c
  {
  }

  /** Otherwise the cursor stops on or right behind the length bytes: it moves by one to four bytes. */
  lemma NextAtLongBlob(k: Kind, w: nat, data: bytes, rest: bytes)
    requires HeadOk(k, w, |data|) && (k == StrK || k == BinK) && |data| + 4 >= TWO32
    ensures w == 4
    ensures var r := |data| + 4 - TWO32;
            r < 4 && Next(Head(k, w, |data|) + data + rest) == Some((BE(|data|, 4) + data)[r..] + rest)
  {
    hide Next, Head, BE;
    NextAtHead(k, w, |data|, data + rest);
    assert Head(k, w, |data|) + data + rest == Head(k, w, |data|) + (data + rest);
    var r := |data| + 4 - TWO32;
    assert (w + |data|) % TWO32 == r;
    assert (BE(|data|, 4) + (data + rest))[r..] == (BE(|data|, 4) + data)[r..] + rest;
  }

  /** The length bytes of an over-long string are one-byte encodings. */
  lemma LongLength(n: nat)
    requires TWO32 - 4 <= n < TWO32
    ensures Singles(BE(n, 4))
  {
    var a, b, c := n / 0x100, n / 0x1_0000, n / 0x100_0000;
    assert BE(n, 4) == BE(a, 3) + [n % 256] && BE(a, 3) == BE(a / 256, 2) + [a % 256];
    assert a / 256 == b && b / 256 == c && c == 255 && b % 256 == 255 && a % 256 == 255;
    assert BE(b, 2) == BE(b / 256, 1) + [b % 256] && BE(c, 1) == BE(c / 256, 0) + [c % 256];
    assert n % 256 >= 252;
  }

  /** Bytes that are encodings of their own. */
  function Spread(s: bytes): (ws: seq<Wire>)
    ensures |ws| == |s|
  {
    if s == [] then [] else [Scalar(s[0], [])] + Spread(s[1..])
  }

  lemma {:induction false} SpreadGood(s: bytes)
    requires Singles(s)
    ensures AllValid(Spread(s)) && AllPlain(Spread(s)) && BytesAll(Spread(s)) == s
  {
    if s != [] {
      SpreadGood(s[1..]);
      SpreadStep(s[0], Spread(s[1..]));
      assert s == [s[0]] + s[1..];
    }
  }

  lemma SpreadStep(b: byte, ws: seq<Wire>)
    requires Single(b) && AllValid(ws) && AllPlain(ws)
    ensures var more := [Scalar(b, [])] + ws;
            AllValid(more) && AllPlain(more) && BytesAll(more) == [b] + BytesAll(ws)
  {
    var x := Scalar(b, []);
    assert Valid(x) && Plain(x) && Bytes(x) == [b] + [];
    assert [b] + [] == [b];
    hide Valid, Plain, Bytes;
    assert ([x] + ws)[1..] == ws;
  }

  lemma SkipBlob(k: Kind, width: nat, data: bytes, tail: seq<Wire>, rest: bytes) returns (after: seq<Wire>)
    requires HeadOk(k, width, |data|) && (k == StrK || k == BinK) && AllValid(tail) && AllPlain(tail)
    requires |data| + 4 >= TWO32 ==> Singles(data)
    ensures AllValid(after) && AllPlain(after) && |after| >= |tail|
    ensures Next(Head(k, width, |data|) + data + (BytesAll(tail) + rest)) == Some(BytesAll(after) + rest)
    ensures |BytesAll(after)| <= width + |data| + |BytesAll(tail)|
    ensures if |data| + 4 >= TWO32 then |after| > |tail| else after == tail
  {
    hide Next, Head, Valid, Plain, BytesAll, BE, Single;
    if |data| + 4 < TWO32 {
      NextAtBlob(k, width, data, BytesAll(tail) + rest);
      after := tail;
    } else {
      NextAtLongBlob(k, width, data, BytesAll(tail) + rest);
      LongLength(|data|);
      var lost := (BE(|data|, 4) + data)[|data| + 4 - TWO32..];
      SpreadGood(lost);
      after := Spread(lost) + tail;
      BytesAllAppend(Spread(lost), tail);
      assert lost + (BytesAll(tail) + rest) == lost + BytesAll(tail) + rest;
    }
  }

  /** The loop over a container's n entries, which stops inside the container when the
      32-bit item count is short. */
  lemma {:induction false} SkipItems(k: Kind, width: nat, items: seq<Wire>, n: nat, tail: seq<Wire>, rest: bytes)
    returns (after: seq<Wire>)
    requires (k == ArrK && n == |items|) || (k == MapK && 2 * n == |items|)
    requires HeadOk(k, width, n) && AllValid(items) && AllValid(tail) && AllPlain(items) && AllPlain(tail)
    ensures AllValid(after) && AllPlain(after) && |after| >= |tail|
    ensures Next(Head(k, width, n) + BytesAll(items) + (BytesAll(tail) + rest)) == Some(BytesAll(after) + rest)
    ensures |BytesAll(after)| <= |BytesAll(items)| + |BytesAll(tail)|
    ensures if |items| >= TWO32 || AnyWide(items, |items|) then |after| > |tail| else after == tail
    decreases |BytesAll(items)| + |BytesAll(tail)|, 3
  {
    hide Wide, Next, NextN, BytesAll, Valid, Plain, Head;
    var count := |items| % TWO32;
    NextAtHead(k, width, n, BytesAll(items) + (BytesAll(tail) + rest));
    BytesAllAppend(items, tail);
    assert Head(k, width, n) + BytesAll(items) + (BytesAll(tail) + rest)
        == Head(k, width, n) + (BytesAll(items) + (BytesAll(tail) + rest));
    assert BytesAll(items) + (BytesAll(tail) + rest) == BytesAll(items + tail) + rest;
    after := SkipAll(items + tail, count, rest);
    if count == |items| {
      assert (items + tail)[count..] == tail;
      if AnyWide(items, count) {
        var i :| 0 <= i < count && Wide(items[i]);
        assert Wide((items + tail)[i]);
      }
    }
  }

  /** Nothing too wide, nothing to ask of long strings. */
  lemma {:induction false} NarrowIsPlain(w: Wire)
    requires !Wide(w)
    ensures Plain(w)
    decreases w
  {
    match w
    case Arr(_, items) =>
      forall i | 0 <= i < |items| ensures Plain(items[i]) { NarrowIsPlain(items[i]); }
    case Map(_, items) =>
      forall i | 0 <= i < |items| ensures Plain(items[i]) { NarrowIsPlain(items[i]); }
    case _ =>
  }

  /** On trees whose over-long strings hold one-byte encodings (all trees without such strings, and all with
      ASCII text in them), `mp_next` advances by exactly the length of the encoding at the cursor, whatever
      follows, if and only if no step is too wide: no map has 2^31 or more pairs and no string or blob has
      2^32 - 4 or more bytes. */
  lemma NextExactPlain(w: Wire, rest: bytes)
    requires Valid(w) && Plain(w)
    ensures Next(Bytes(w) + rest) == Some(rest) <==> !Wide(w)
    ensures Next(Bytes(w) + rest).Some?
  {
    hide Next, Bytes, Wide, Plain, Valid;
    var after := SkipOne(w, [], rest);
    assert Bytes(w) + (BytesAll([]) + rest) == Bytes(w) + rest;
    assert BytesAll([]) + rest == rest;
  }

  /** Every tree without such a step is skipped exactly, whatever follows. */
  lemma NextExact(w: Wire, rest: bytes)
    requires Valid(w) && !Wide(w)
    ensures Next(Bytes(w) + rest) == Some(rest)
  {
    hide Next, Bytes, Wide, Plain, Valid;
    NarrowIsPlain(w);
    NextExactPlain(w, rest);
  }

  lemma {:induction false} ItemBytes(ws: seq<Wire>, i: nat)
    requires i < |ws|
    ensures |Bytes(ws[i])| <= |BytesAll(ws)| && |ws| <= |BytesAll(ws)|
    decreases |ws|
  {
    hide Bytes;
    if i > 0 {
      ItemBytes(ws[1..], i - 1);
    } else if |ws| > 1 {
      ItemBytes(ws[1..], 0);
    }
  }

  lemma {:induction false} ShortNarrow(w: Wire)
    requires Valid(w) && |Bytes(w)| < TWO32
    ensures !Wide(w)
    decreases w
  {
    hide Head;
    match w
    case Arr(_, items) =>
      ShortItems(w, items);
    case Map(_, items) =>
      ShortItems(w, items);
      if items != [] { ItemBytes(items, 0); }
    case _ =>
  }

  lemma {:induction false} ShortItems(w: Wire, items: seq<Wire>)
    requires (w.Arr? || w.Map?) && w.items == items && AllValid(items) && |BytesAll(items)| < TWO32
    ensures forall i :: 0 <= i < |items| ==> !Wide(items[i])
    decreases w, 0
  {
    hide Wide, Valid, Bytes;
    forall i | 0 <= i < |items|
      ensures !Wide(items[i])
    {
      ItemBytes(items, i);
      ShortNarrow(items[i]);
    }
  }

  /** Every encoding shorter than 2^32 bytes is stepped over exactly. */
  lemma NextExactShort(w: Wire, rest: bytes)
    requires Valid(w) && |Bytes(w)| < TWO32
    ensures Next(Bytes(w) + rest) == Some(rest)
  {
    hide Next, Bytes, Wide, Valid;
    ShortNarrow(w);
    NextExact(w, rest);
  }

  // ---------------------------------------------------------------- lengths alone decide

  function Zeros(n: nat): (z: bytes)
    ensures |z| == n && forall i :: 0 <= i < n ==> z[i] == 0
  {
    seq(n, _ => 0)
  }

  /** The same tree with zero bytes in its strings and blobs: its shape and its lengths. */
  function Blank(w: Wire): Wire
    decreases w, 0
  {
    match w
    case Scalar(_, _) => w
    case Str(width, data) => Str(width, Zeros(|data|))
    case Bin(width, data) => Bin(width, Zeros(|data|))
    case Arr(width, items) => Arr(width, BlankAll(items))
    case Map(width, items) => Map(width, BlankAll(items))
  }

  function BlankAll(ws: seq<Wire>): (bs: seq<Wire>)
    ensures |bs| == |ws| && forall i :: 0 <= i < |ws| ==> bs[i] == Blank(ws[i])
    decreases ws, 1
  {
    seq(|ws|, i requires 0 <= i < |ws| => Blank(ws[i]))
  }

  lemma {:induction false} BlankSame(w: Wire)
    ensures Wide(Blank(w)) == Wide(w) && Valid(Blank(w)) == Valid(w) && Plain(Blank(w)) && Blank(Blank(w)) == Blank(w)
    decreases w
  {
    match w
    case Arr(_, items) =>
      BlankSameAll(w, items);
    case Map(_, items) =>
      BlankSameAll(w, items);
    case Str(_, data) => assert Zeros(|Zeros(|data|)|) == Zeros(|data|);
    case Bin(_, data) => assert Zeros(|Zeros(|data|)|) == Zeros(|data|);
    case _ =>
  }

  lemma {:induction false} BlankSameAll(w: Wire, items: seq<Wire>)
    requires (w.Arr? || w.Map?) && w.items == items
    ensures forall i :: 0 <= i < |items| ==> Wide(Blank(items[i])) == Wide(items[i])
    ensures AllValid(BlankAll(items)) == AllValid(items) && AllPlain(BlankAll(items))
            && BlankAll(BlankAll(items)) == BlankAll(items)
    decreases w, 0
  {
    hide Wide, Valid, Plain, Blank;
    var bs := BlankAll(items);
    forall i | 0 <= i < |items|
      ensures Wide(bs[i]) == Wide(items[i]) && Valid(bs[i]) == Valid(items[i]) && Plain(bs[i]) && Blank(bs[i]) == bs[i]
    {
      BlankSame(items[i]);
    }
  }

  /** Every tree of this shape is skipped exactly. */
  ghost predicate ShapeExact(w: Wire) {
    forall w': Wire, rest: bytes :: Valid(w') && Blank(w') == Blank(w) ==> Next(Bytes(w') + rest) == Some(rest)
  }

  /** The shape and the lengths of an encoding guarantee that `mp_next` steps over it, whatever its strings
      hold and whatever follows, if and only if no step is too wide. */
  lemma ShapeDecides(w: Wire)
    requires Valid(w)
    ensures ShapeExact(w) <==> !Wide(w)
  {
    hide Next, Bytes, Wide, Plain, Valid, Blank;
    BlankSame(w);
    if Wide(w) {
      NextExactPlain(Blank(w), []);
      assert Next(Bytes(Blank(w)) + []) != Some([]);
    } else {
      forall w': Wire, rest: bytes | Valid(w') && Blank(w') == Blank(w)
        ensures Next(Bytes(w') + rest) == Some(rest)
      {
        BlankSame(w');
        NextExact(w', rest);
      }
    }
  }

  /** A string or blob of 2^32 - 4 or more bytes is never stepped over, whatever it holds. */
  lemma LongBlobMissed(w: Wire, rest: bytes)
    requires Valid(w) && (w.Str? || w.Bin?)
    ensures Next(Bytes(w) + rest) == Some(rest) <==> !Wide(w)
  {
    hide Next, Head, BE;
    var k := if w.Str? then StrK else BinK;
    if Wide(w) {
      NextAtLongBlob(k, w.width, w.data, rest);
      assert |(BE(|w.data|, 4) + w.data)[|w.data| + 4 - TWO32..] + rest| > |rest|;
    } else {
      NextAtBlob(k, w.width, w.data, rest);
    }
  }

  // ---------------------------------------------------------------- right by accident

  lemma {:induction false} NextNSplit(s: bytes, a: nat, b: nat)
    requires NextN(s, a).Some?
    ensures NextN(s, a + b) == NextN(NextN(s, a).value, b)
    decreases a
  {
    hide Next;
    if a > 0 {
      NextNSplit(Next(s).value, a - 1, b);
    }
  }

  lemma NextSingles(s: bytes, rest: bytes)
    requires Singles(s)
    ensures NextN(s + rest, |s|) == Some(rest)
  {
    hide NextN, Single, Valid, Plain;
    SpreadGood(s);
    SpreadNarrow(s);
    var left := SkipAll(Spread(s), |s|, rest);
    assert BytesAll([]) + rest == rest;
  }

  lemma {:induction false} SpreadNarrow(s: bytes)
    ensures forall i :: 0 <= i < |s| ==> !Wide(Spread(s)[i])
  {
    if s != [] {
      SpreadNarrow(s[1..]);
      assert forall i :: 0 < i < |s| ==> Spread(s)[i] == Spread(s[1..])[i - 1];
    }
  }

  /** An array of an over-long string and five small numbers; the string reads as an array that ends where the
      outer one does. */
  function Lucky(): Wire {
    var data := Head(ArrK, 4, TWO32 - 4) + Zeros(TWO32 - 9);
    Arr(0, [Str(4, data)] + Spread(Zeros(5)))
  }

  /** So a tree with a step too wide can still be stepped over, when what a string holds makes up for it: the
      condition on what over-long strings hold cannot be dropped from the equivalence. */
  lemma SkippedByAccident(rest: bytes)
    ensures Valid(Lucky()) && Wide(Lucky()) && !Plain(Lucky())
    ensures Next(Bytes(Lucky()) + rest) == Some(rest)
  {
    hide NextN, Next, Head, Spread, Zeros, Valid, Wide, Plain;
    var data := Head(ArrK, 4, TWO32 - 4) + Zeros(TWO32 - 9);
    var items := [Str(4, data)] + Spread(Zeros(5));
    LuckyGood(data, items);
    var body := BytesAll(items) + rest;
    LuckyBytes(data, items, rest);
    NextAtHead(ArrK, 0, 6, body);
    LuckyWalk(data, body, rest);
  }

  lemma LuckyBytes(data: bytes, items: seq<Wire>, rest: bytes)
    requires items == [Str(4, data)] + Spread(Zeros(5)) && |items| == 6
    ensures Bytes(Arr(0, items)) + rest == Head(ArrK, 0, 6) + (BytesAll(items) + rest)
    ensures BytesAll(items) + rest == Head(StrK, 4, |data|) + data + (Zeros(5) + rest)
  {
    hide Head, Spread, Zeros;
    ZerosSingle(5);
    SpreadGood(Zeros(5));
    assert items[1..] == Spread(Zeros(5));
    Grouped(Head(ArrK, 0, 6), BytesAll(items), rest);
    Grouped(Head(StrK, 4, |data|) + data, Zeros(5), rest);
  }

  lemma LuckyGood(data: bytes, items: seq<Wire>)
    requires data == Head(ArrK, 4, TWO32 - 4) + Zeros(TWO32 - 9) && items == [Str(4, data)] + Spread(Zeros(5))
    ensures Lucky() == Arr(0, items) && |items| == 6 && |data| == TWO32 - 4
    ensures Valid(Lucky()) && Wide(Lucky()) && !Plain(Lucky())
  {
    hide Spread, Zeros;
    SpreadGood(Zeros(5));
    assert Valid(items[0]) && Wide(items[0]);
    assert data[0] == 0xdd && !Single(data[0]);
    assert !Plain(items[0]);
    assert forall i :: 1 <= i < 6 ==> items[i] == Spread(Zeros(5))[i - 1];
  }

  lemma LuckyWalk(data: bytes, body: bytes, rest: bytes)
    requires data == Head(ArrK, 4, TWO32 - 4) + Zeros(TWO32 - 9) && |data| == TWO32 - 4
    requires body == Head(StrK, 4, |data|) + data + (Zeros(5) + rest)
    ensures NextN(body, 6) == Some(rest)
  {
    hide Next, Head, BE, Single, NextN;
    var n := TWO32 - 4;
    NextAtLongBlob(StrK, 4, data, Zeros(5) + rest);
    var t1 := BE(n, 4) + (data + (Zeros(5) + rest));
    assert (BE(n, 4) + data)[0..] + (Zeros(5) + rest) == t1;
    LongLength(n);
    NextSingles(BE(n, 4), data + (Zeros(5) + rest));
    var t2 := Head(ArrK, 4, n) + (Zeros(n) + rest);
    assert Zeros(TWO32 - 9) + Zeros(5) == Zeros(n);
    assert data + (Zeros(5) + rest) == t2;
    NextAtHead(ArrK, 4, n, Zeros(n) + rest);
    ZerosSingle(n);
    NextSingles(Zeros(n), rest);
    SixSteps(body, t1, t2, rest);
  }

  lemma ZerosSingle(n: nat)
    ensures Singles(Zeros(n))
  {
  }

  lemma SixSteps(s: bytes, t1: bytes, t2: bytes, rest: bytes)
    requires Next(s) == Some(t1) && NextN(t1, 4) == Some(t2) && Next(t2) == Some(rest)
    ensures NextN(s, 6) == Some(rest)
  {
    hide Next;
    NextNSplit(t1, 4, 1);
    assert NextN(t2, 1) == Some(rest);
  }

  /** A float or ext tag is not stepped over with its payload: the cursor stops on its first payload byte. */
  lemma NextMissesFloats(tag: byte, payload: bytes, rest: bytes)
    requires tag == 0xca || tag == 0xcb || 0xc7 <= tag <= 0xc9 || 0xd4 <= tag <= 0xd8
    ensures Next([tag] + payload + rest) == Some(rest) <==> payload == []
  {
    var s := [tag] + payload + rest;
    assert s[1..] == payload + rest;
    if payload != [] { assert |payload + rest| > |rest|; }
  }

  // ---------------------------------------------------------------- decoders on valid encodings

  lemma DecodeUintExact(w: Wire, rest: bytes)
    requires Valid(w) && Meaning(w).UInt?
    ensures DecodeUint(Bytes(w) + rest) == Some((Meaning(w).n, rest))
    ensures !Wide(w)
  {
    var s := Bytes(w) + rest;
    assert s[1..1 + |w.body|] == w.body && s[1 + |w.body|..] == rest;
  }

  lemma DecodeStrExact(w: Wire, rest: bytes)
    requires Valid(w) && w.Str?
    ensures DecodeStr(Bytes(w) + rest) == Some((w.data, rest))
  {
    HeadRoundTrip(StrK, w.width, |w.data|, w.data + rest);
    assert Bytes(w) + rest == Head(StrK, w.width, |w.data|) + (w.data + rest);
    assert (w.data + rest)[..|w.data|] == w.data && (w.data + rest)[|w.data|..] == rest;
  }

  lemma DecodeArrExact(w: Wire, rest: bytes)
    requires Valid(w) && w.Arr?
    ensures DecodeHead(ArrK, Bytes(w) + rest) == Some((|w.items|, BytesAll(w.items) + rest))
  {
    HeadRoundTrip(ArrK, w.width, |w.items|, BytesAll(w.items) + rest);
    assert Bytes(w) + rest == Head(ArrK, w.width, |w.items|) + (BytesAll(w.items) + rest);
  }

  lemma DecodeMapExact(w: Wire, rest: bytes)
    requires Valid(w) && w.Map?
    ensures DecodeHead(MapK, Bytes(w) + rest) == Some((|w.items| / 2, BytesAll(w.items) + rest))
  {
    HeadRoundTrip(MapK, w.width, |w.items| / 2, BytesAll(w.items) + rest);
    assert Bytes(w) + rest == Head(MapK, w.width, |w.items| / 2) + (BytesAll(w.items) + rest);
  }

  // ---------------------------------------------------------------- what the encoders emit

  /** The width the encoders choose for a length. */
  function MinWidth(k: Kind, n: nat): (w: nat)
    ensures n < TWO32 ==> HeadOk(k, w, n)
    ensures forall w' :: HeadOk(k, w', n) ==> w <= w'
  {
    if k != BinK && n <= FixMax(k) then 0
    else if (k == StrK || k == BinK) && n <= 0xff then 1
    else if n <= 0xffff then 2
    else 4
  }

  function UintWire(n: nat): Wire {
    if n <= 0x7f then Scalar(n, [])
    else if n <= 0xff then Scalar(0xcc, BE(n, 1))
    else if n <= 0xffff then Scalar(0xcd, BE(n, 2))
    else if n < TWO32 then Scalar(0xce, BE(n, 4))
    else Scalar(0xcf, BE(n, 8))
  }

  lemma UintWireExact(n: nat)
    requires n < TWO64
    ensures Valid(UintWire(n)) && Meaning(UintWire(n)) == UInt(n)
  {
    hide UnBE, BE, Cap;
    Caps();
    if n > 0x7f {
      UnBEofBE(n, if n <= 0xff then 1 else if n <= 0xffff then 2 else if n < TWO32 then 4 else 8);
    }
  }

  /** No other encoding of an unsigned number is shorter than the one `mp_encode_uint` picks. */
  lemma UintWireShortest(n: nat, w: Wire)
    requires n < TWO64 && Valid(w) && Meaning(w) == UInt(n)
    ensures |Bytes(UintWire(n))| <= |Bytes(w)|
  {
    hide UnBE, BE, Cap;
    Caps();
    BEofUnBE(w.body);
  }

  /** The values the encoders can write: everything but negative numbers. */
  predicate Encodable(v: Value)
    decreases v, 0
  {
    match v
    case Nil => true
    case Bool(_) => true
    case UInt(n) => n < TWO64
    case SInt(_) => false
    case Text(s) => |s| < TWO32
    case Blob(s) => |s| < TWO32
    case List(vs) => |vs| < TWO32 && AllEncodable(vs)
    case Dict(vs) => |vs| / 2 < TWO32 && |vs| % 2 == 0 && AllEncodable(vs)
  }

  predicate AllEncodable(vs: seq<Value>)
    decreases vs, 1
  {
    forall i :: 0 <= i < |vs| ==> Encodable(vs[i])
  }

  /** The encoding the `mp_encode_*` routines choose. */
  function Enc(v: Value): Wire
    decreases v, 0
  {
    match v
    case Nil => Scalar(0xc0, [])
    case Bool(b) => Scalar(if b then 0xc3 else 0xc2, [])
    case UInt(n) => UintWire(n)
    case SInt(_) => Scalar(0xc0, [])
    case Text(s) => Str(MinWidth(StrK, |s|), s)
    case Blob(s) => Bin(MinWidth(BinK, |s|), s)
    case List(vs) => Arr(MinWidth(ArrK, |vs|), EncAll(vs))
    case Dict(vs) => Map(MinWidth(MapK, |vs| / 2), EncAll(vs))
  }

  function EncAll(vs: seq<Value>): (ws: seq<Wire>)
    ensures |ws| == |vs|
    decreases vs, 1
  {
    if vs == [] then [] else [Enc(vs[0])] + EncAll(vs[1..])
  }

  lemma {:induction false} EncAllAt(vs: seq<Value>, i: nat)
    requires i < |vs|
    ensures EncAll(vs)[i] == Enc(vs[i])
    decreases i
  {
    hide Enc;
    if i > 0 {
      EncAllAt(vs[1..], i - 1);
    }
  }

  /** No string or blob in the value has 2^32 - 4 or more bytes. */
  predicate Skippable(v: Value)
    decreases v, 0
  {
    match v
    case Text(s) => |s| + 4 < TWO32
    case Blob(s) => |s| + 4 < TWO32
    case List(vs) => AllSkippable(vs)
    case Dict(vs) => |vs| < TWO32 && AllSkippable(vs)
    case _ => true
  }

  predicate AllSkippable(vs: seq<Value>)
    decreases vs, 1
  {
    forall i :: 0 <= i < |vs| ==> Skippable(vs[i])
  }

  /** Encoding keeps the value: the encoding is valid and means the value; it has no step too wide for
      `mp_next` exactly when no string in the value is too long and no map has 2^31 or more pairs. */
  lemma {:induction false} EncExact(v: Value)
    requires Encodable(v)
    ensures Valid(Enc(v)) && Meaning(Enc(v)) == v && (Wide(Enc(v)) <==> !Skippable(v))
    decreases v, 0
  {
    hide EncAll, Meanings, UintWire;
    match v
    case UInt(n) => UintWireExact(n);
    case List(vs) => EncAllExact(vs);
    case Dict(vs) => EncAllExact(vs);
    case _ =>
  }

  lemma {:induction false} EncAllExact(vs: seq<Value>)
    requires AllEncodable(vs)
    ensures AllValid(EncAll(vs)) && Meanings(EncAll(vs)) == vs
    ensures forall i :: 0 <= i < |vs| ==> (Wide(EncAll(vs)[i]) <==> !Skippable(vs[i]))
    decreases vs, 1
  {
    hide Enc, Valid, Wide, Meaning, Encodable, Skippable;
    forall i | 0 <= i < |vs|
      ensures Valid(EncAll(vs)[i]) && Meaning(EncAll(vs)[i]) == vs[i] && (Wide(EncAll(vs)[i]) <==> !Skippable(vs[i]))
    {
      EncAllAt(vs, i);
      EncExact(vs[i]);
    }
  }
}
