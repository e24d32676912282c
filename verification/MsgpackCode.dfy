/** The codec as the C code runs it: encoders write through an advancing offset into a buffer,
    decoders advance an offset over constant data, and the skipper recurses inside its loops. */
module MsgpackCode {
  import opened Wrappers
  import opened Msgpack

  lemma BE2(n: nat)
    ensures BE(n, 2) == [n / 0x100 % 256, n % 256]
  {
    assert BE(n / 256, 1) == BE(n / 256 / 256, 0) + [n / 256 % 256];
  }

  lemma BE4(n: nat)
    ensures BE(n, 4) == [n / 0x100_0000 % 256, n / 0x1_0000 % 256, n / 0x100 % 256, n % 256]
  {
    BE2(n / 256 / 256);
    assert BE(n / 256, 3) == BE(n / 256 / 256, 2) + [n / 256 % 256];
  }

  /** A tag and a one-byte number. */
  method Put1(buf: array<byte>, p: nat, tag: byte, n: nat) returns (q: nat)
    requires n <= 0xff && p + 2 <= buf.Length
    modifies buf
    ensures q == p + 2 && buf[..q] == old(buf[..p]) + ([tag] + BE(n, 1)) && buf[q..] == old(buf[q..])
  {
    buf[p] := tag;
    buf[p + 1] := n;
    q := p + 2;
    assert BE(n / 256, 0) == [];
    assert buf[p..q] == [tag] + BE(n, 1);
  }

  /** A tag and a two-byte big-endian number. */
  method Put2(buf: array<byte>, p: nat, tag: byte, n: nat) returns (q: nat)
    requires n <= 0xffff && p + 3 <= buf.Length
    modifies buf
    ensures q == p + 3 && buf[..q] == old(buf[..p]) + ([tag] + BE(n, 2)) && buf[q..] == old(buf[q..])
  {
    buf[p] := tag;
    buf[p + 1] := n / 0x100;
    buf[p + 2] := n % 256;
    q := p + 3;
    BE2(n);
    assert buf[p..q] == [tag] + BE(n, 2);
  }

  /** A tag and a four-byte big-endian number. */
  method Put4(buf: array<byte>, p: nat, tag: byte, n: nat) returns (q: nat)
    requires n < TWO32 && p + 5 <= buf.Length
    modifies buf
    ensures q == p + 5 && buf[..q] == old(buf[..p]) + ([tag] + BE(n, 4)) && buf[q..] == old(buf[q..])
  {
    hide BE;
    buf[p] := tag;
    buf[p + 1] := n / 0x100_0000;
    buf[p + 2] := n / 0x1_0000 % 256;
    buf[p + 3] := n / 0x100 % 256;
    buf[p + 4] := n % 256;
    q := p + 5;
    BE4(n);
    assert buf[p..q] == [tag] + BE(n, 4);
  }

  /** `n >> (8 * i)` */
  function Shr8(n: nat, i: nat): nat {
    if i == 0 then n else Shr8(n, i - 1) / 256
  }

  /** A tag and an eight-byte number, shifted out from the most significant byte by a loop. */
  method Put8(buf: array<byte>, p: nat, tag: byte, n: nat) returns (q: nat)
    requires n < TWO64 && p + 9 <= buf.Length
    modifies buf
    ensures q == p + 9 && buf[..q] == old(buf[..p]) + ([tag] + BE(n, 8)) && buf[q..] == old(buf[q..])
  {
    hide Shr8, BE;
    NoBytes(Shr8(n, 8));
    buf[p] := tag;
    q := p + 1;
    var i := 7;
    while i >= 0
      invariant -1 <= i <= 7 && q == p + 8 - i
      invariant buf[..q] == old(buf[..p]) + ([tag] + BE(Shr8(n, i + 1), 7 - i))
      invariant forall k :: q <= k < buf.Length ==> buf[k] == old(buf[k])
    {
      Shifted(n, i);
      buf[q] := Shr8(n, i) % 256;
      q := q + 1;
      i := i - 1;
    }
    Unshifted(n);
  }

  lemma NoBytes(n: nat)
    ensures BE(n, 0) == []
  {
  }

  /** The next byte of a number shifted out from the front. */
  lemma Shifted(n: nat, i: nat)
    requires i < 8
    ensures BE(Shr8(n, i), 8 - i) == BE(Shr8(n, i + 1), 7 - i) + [Shr8(n, i) % 256]
  {
  }

  lemma Unshifted(n: nat)
    ensures Shr8(n, 0) == n
  {
  }

  /** `mp_encode_uint` */
  method EncodeUint(buf: array<byte>, p: nat, num: nat) returns (q: nat)
    requires num < TWO64 && p + |Bytes(UintWire(num))| <= buf.Length
    modifies buf
    ensures q == p + |Bytes(UintWire(num))|
    ensures buf[..q] == old(buf[..p]) + Bytes(UintWire(num))
    ensures buf[q..] == old(buf[q..])
  {
    hide BE;
    if num <= 0x7f {
      buf[p] := num;
      q := p + 1;
    } else if num <= 0xff {
      q := Put1(buf, p, 0xcc, num);
    } else if num <= 0xffff {
      q := Put2(buf, p, 0xcd, num);
    } else if num <= 0xffff_ffff {
      q := Put4(buf, p, 0xce, num);
    } else {
      q := Put8(buf, p, 0xcf, num);
    }
  }

  /** The length part of `mp_encode_str`, `mp_encode_bin`, `mp_encode_array` and `mp_encode_map`. */
  method EncodeHead(buf: array<byte>, p: nat, k: Kind, n: nat) returns (q: nat)
    requires n < TWO32 && p + 1 + MinWidth(k, n) <= buf.Length
    modifies buf
    ensures q == p + 1 + MinWidth(k, n)
    ensures buf[..q] == old(buf[..p]) + Head(k, MinWidth(k, n), n)
    ensures buf[q..] == old(buf[q..])
  {
    hide BE;
    if k != BinK && n <= FixMax(k) {
      buf[p] := FixBase(k) + n;
      q := p + 1;
    } else if (k == StrK || k == BinK) && n <= 0xff {
      q := Put1(buf, p, WideTag(k, 1), n);
    } else if n <= 0xffff {
      q := Put2(buf, p, WideTag(k, 2), n);
    } else {
      q := Put4(buf, p, WideTag(k, 4), n);
    }
  }

  method CopyBytes(buf: array<byte>, p: nat, data: bytes) returns (q: nat)
    requires p + |data| <= buf.Length
    modifies buf
    ensures q == p + |data|
    ensures buf[..q] == old(buf[..p]) + data
    ensures buf[q..] == old(buf[q..])
  {
    forall i | 0 <= i < |data| {
      buf[p + i] := data[i];
    }
    q := p + |data|;
    assert buf[p..q] == data;
  }

  /** `mp_encode_str` */
  method EncodeStr(buf: array<byte>, p: nat, data: bytes) returns (q: nat)
    requires |data| < TWO32 && p + |Bytes(Enc(Text(data)))| <= buf.Length
    modifies buf
    ensures q == p + |Bytes(Enc(Text(data)))|
    ensures buf[..q] == old(buf[..p]) + Bytes(Enc(Text(data)))
    ensures buf[q..] == old(buf[q..])
  {
    q := EncodeHead(buf, p, StrK, |data|);
    ghost var mid := buf[..];
    q := CopyBytes(buf, q, data);
    assert mid[q..] == old(buf[q..]);
  }

  /** `mp_encode_bin` */
  method EncodeBin(buf: array<byte>, p: nat, data: bytes) returns (q: nat)
    requires |data| < TWO32 && p + |Bytes(Enc(Blob(data)))| <= buf.Length
    modifies buf
    ensures q == p + |Bytes(Enc(Blob(data)))|
    ensures buf[..q] == old(buf[..p]) + Bytes(Enc(Blob(data)))
    ensures buf[q..] == old(buf[q..])
  {
    q := EncodeHead(buf, p, BinK, |data|);
    ghost var mid := buf[..];
    q := CopyBytes(buf, q, data);
    assert mid[q..] == old(buf[q..]);
  }

  // ---------------------------------------------------------------- decoders

  /** `mp_decode_uint` */
  method DecodeUintAt(data: bytes, p: nat) returns (val: nat, q: nat)
    requires p <= |data| && DecodeUint(data[p..]).Some?
    ensures p < q <= |data| && DecodeUint(data[p..]) == Some((val, data[q..]))
  {
    hide UnBE, Cap, BE;
    var c := data[p];
    q := p + 1;
    val := 0;
    if c <= 0x7f {
      val := c;
    } else if c == 0xcc {
      UnBE1(data[q..q + 1]);
      val := data[q]; q := q + 1;
    } else if c == 0xcd {
      UnBE2(data[q..q + 2]);
      val := data[q] as int * 0x100 + data[q + 1]; q := q + 2;
    } else if c == 0xce {
      UnBE4(data[q..q + 4]);
      val := data[q] as int * 0x100_0000 + data[q + 1] as int * 0x1_0000 + data[q + 2] as int * 0x100 + data[q + 3];
      q := q + 4;
    } else if c == 0xcf {
      UnBE0();
      for i := 0 to 8
        invariant q == p + 1 + i && val == UnBE(data[p + 1..q])
      {
        UnBENext(data[p + 1..q], data[q]);
        assert data[p + 1..q] + [data[q]] == data[p + 1..q + 1];
        val := val * 256 + data[q];
        q := q + 1;
      }
    }
    assert data[p..][1..q - p] == data[p + 1..q];
  }

  lemma UnBE0()
    ensures UnBE([]) == 0
  {
  }

  lemma UnBENext(s: bytes, b: byte)
    ensures UnBE(s + [b]) == UnBE(s) * 256 + b
  {
    assert (s + [b])[..|s|] == s;
  }

  /** `mp_decode_array`, `mp_decode_map` and the length part of `mp_decode_str`. */
  method DecodeHeadAt(k: Kind, data: bytes, p: nat) returns (n: nat, q: nat)
    requires p <= |data| && DecodeHead(k, data[p..]).Some?
    ensures p < q <= |data| && DecodeHead(k, data[p..]) == Some((n, data[q..]))
  {
    hide UnBE, Cap, BE;
    var c := data[p];
    q := p + 1;
    n := 0;
    match KindOf(c)
    case None =>
    case Some((k', w)) =>
      if k' == k {
        if w == 0 {
          n := c - FixBase(k);
        } else if w == 1 {
          UnBE1(data[q..q + 1]);
          n := data[q]; q := q + 1;
        } else if w == 2 {
          UnBE2(data[q..q + 2]);
          n := data[q] as int * 0x100 + data[q + 1]; q := q + 2;
        } else {
          UnBE4(data[q..q + 4]);
          n := data[q] as int * 0x100_0000 + data[q + 1] as int * 0x1_0000 + data[q + 2] as int * 0x100 + data[q + 3];
          q := q + 4;
        }
        assert data[p..][1..q - p] == data[p + 1..q];
      }
  }

  /** `mp_decode_str`: the string is data[b..q]. */
  method DecodeStrAt(data: bytes, p: nat) returns (s: bytes, q: nat)
    requires p <= |data| && DecodeStr(data[p..]).Some?
    ensures p < q <= |data| && DecodeStr(data[p..]) == Some((s, data[q..]))
  {
    var n, b := DecodeHeadAt(StrK, data, p);
    q := b + n;
    s := data[b..q];
    assert data[b..][..n] == s && data[b..][n..] == data[q..];
  }

  /** `mp_next` */
  method SkipAt(data: bytes, p: nat) returns (q: nat)
    requires p <= |data| && Next(data[p..]).Some?
    ensures p < q <= |data| && Next(data[p..]) == Some(data[q..])
    decreases |data| - p, 0
  {
    hide NextN;
    var c := data[p];
    match KindOf(c)
    case None =>
      q := p + 1 + ScalarLen(c);
    case Some((k, w)) =>
      var n, b := DecodeHeadAt(k, data, p);
      if k == StrK || k == BinK {
        assert data[p..][1..] == data[p + 1..];
        q := p + 1 + (w + n) % TWO32;
      } else {
        q := SkipItemsAt(data, b, if k == ArrK then n else 2 * n % TWO32);
      }
  }

  /** The loop over a container's items inside `mp_next`. */
  method SkipItemsAt(data: bytes, p: nat, count: nat) returns (q: nat)
    requires p <= |data| && NextN(data[p..], count).Some?
    ensures p <= q <= |data| && NextN(data[p..], count) == Some(data[q..])
    decreases |data| - p, 1
  {
    hide Next;
    q := p;
    var i := 0;
    while i < count
      invariant 0 <= i <= count && p <= q <= |data|
      invariant NextN(data[q..], count - i) == NextN(data[p..], count)
    {
      q := SkipAt(data, q);
      i := i + 1;
    }
  }
}
