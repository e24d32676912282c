/**
 The base64 decoder of the cache driver, against the encoding of section 4 of RFC 4648. The decoder passes over
 characters outside the alphabet, stops at `=` or at a terminator, and never writes beyond its destination.
 */
module Base64 {
  import opened Msgpack

  type sextet = v: int | 0 <= v < 64

  const PADDING: byte := 61

  // ---------------------------------------------------------------- the standard

  /** Table 1 of RFC 4648. */
  function Char(v: sextet): byte {
    if v < 26 then 65 + v
    else if v < 52 then 97 + (v - 26)
    else if v < 62 then 48 + (v - 52)
    else if v == 62 then 43 else 47
  }

  /** The 24-bit groups of the input as 6-bit numbers; one or two bytes at the end are filled with zero bits. */
  function Sextets(x: bytes): seq<sextet> {
    if |x| == 0 then []
    else if |x| == 1 then [x[0] / 4, x[0] % 4 * 16]
    else if |x| == 2 then [x[0] / 4, x[0] % 4 * 16 + x[1] / 16, x[1] % 16 * 4]
    else [x[0] / 4, x[0] % 4 * 16 + x[1] / 16, x[1] % 16 * 4 + x[2] / 64, x[2] % 64] + Sextets(x[3..])
  }

  function Chars(vs: seq<sextet>): bytes {
    if vs == [] then [] else [Char(vs[0])] + Chars(vs[1..])
  }

  function Encode(x: bytes): bytes {
    Chars(Sextets(x)) + (if |x| % 3 == 1 then [PADDING, PADDING] else if |x| % 3 == 2 then [PADDING] else [])
  }

  /** The alphabet: upper case, lower case, digits, each in order, then `+` and `/`. */
  lemma Alphabet(v: sextet)
    ensures Char(0) == 'A' as int && Char(26) == 'a' as int && Char(52) == '0' as int
    ensures Char(62) == '+' as int && Char(63) == '/' as int
    ensures v != 25 && v != 51 && v < 61 ==> Char(v + 1) == Char(v) + 1
  {
  }

  /** Test vectors of section 10 of RFC 4648. */
  lemma Vectors()
    ensures Encode(Ascii("f")) == Ascii("Zg==") && Encode(Ascii("fo")) == Ascii("Zm8=")
    ensures Encode(Ascii("foo")) == Ascii("Zm9v")
  {
    hide *;
    OneChar();
    TwoChars();
    ThreeChars();
  }

  lemma {:induction false} OneChar()
    ensures Encode(Ascii("f")) == Ascii("Zg==")
  {
    assert Sextets(Ascii("f")) == [25, 32];
    assert [25, 32][1..] == [32] && [32][1..] == [];
  }

  lemma {:induction false} TwoChars()
    ensures Encode(Ascii("fo")) == Ascii("Zm8=")
  {
    assert Sextets(Ascii("fo")) == [25, 38, 60];
    assert [25, 38, 60][1..] == [38, 60] && [38, 60][1..] == [60] && [60][1..] == [];
  }

  lemma {:induction false} ThreeChars()
    ensures Encode(Ascii("foo")) == Ascii("Zm9v")
  {
    assert Ascii("foo")[3..] == [];
    assert Sextets(Ascii("foo")) == [25, 38, 61, 47];
    assert [25, 38, 61, 47][1..] == [38, 61, 47] && [38, 61, 47][1..] == [61, 47] && [61, 47][1..] == [47];
    assert [47][1..] == [];
  }

  // ---------------------------------------------------------------- the decoder

  /** `tnt_b64_table`: the number of a character, -1 outside the alphabet. */
  function Value(c: byte): (v: int)
    ensures -1 <= v < 64
  {
    if 65 <= c <= 90 then c - 65
    else if 97 <= c <= 122 then c - 97 + 26
    else if 48 <= c <= 57 then c - 48 + 52
    else if c == 43 then 62
    else if c == 47 then 63
    else -1
  }

  predicate Ends(c: byte) { c == 0 || c == PADDING }

  function Pow2(n: nat): (p: nat)
    ensures p > 0
  {
    if n == 0 then 1 else 2 * Pow2(n - 1)
  }

  /** The register after one more number; wrapping at 32 bits never touches the bits still needed. */
  function Shift(acc: nat, v: sextet): nat {
    (acc * 64 % TWO32 + v) % TWO32
  }

  /** What the decoder writes when nothing limits it: `acc` is the 32-bit register, `bits` how many of its low
      bits have not been written yet. */
  function Decode(src: bytes, acc: nat, bits: nat): bytes
    decreases |src|
  {
    if src == [] || Ends(src[0]) then []
    else if Value(src[0]) < 0 then Decode(src[1..], acc, bits)
    else
      var acc' := Shift(acc, Value(src[0]));
      if bits + 6 >= 8 then [acc' / Pow2(bits - 2) % 256] + Decode(src[1..], acc', bits - 2)
      else Decode(src[1..], acc', bits + 6)
  }

  /** The characters that count: those of the alphabet, up to the end. */
  function Letters(src: bytes): bytes {
    if src == [] || Ends(src[0]) then []
    else if Value(src[0]) < 0 then Letters(src[1..])
    else [src[0]] + Letters(src[1..])
  }

  lemma {:induction false} LettersOnly(src: bytes, acc: nat, bits: nat)
    ensures Decode(src, acc, bits) == Decode(Letters(src), acc, bits)
    decreases |src|
  {
    hide Pow2, Shift;
    if src != [] && !Ends(src[0]) {
      var c := src[0];
      if Value(c) < 0 {
        LettersOnly(src[1..], acc, bits);
      } else {
        var acc' := Shift(acc, Value(c));
        var rest := Letters(src[1..]);
        assert ([c] + rest)[1..] == rest;
        LettersOnly(src[1..], acc', if bits + 6 >= 8 then bits - 2 else bits + 6);
      }
    }
  }

  /** A character outside the alphabet changes nothing, wherever it is put. */
  lemma {:induction false} NoiseIgnored(pre: bytes, c: byte, post: bytes)
    requires Value(c) < 0 && !Ends(c)
    ensures Letters(pre + [c] + post) == Letters(pre + post)
  {
    if pre == [] {
      assert pre + [c] + post == [c] + post && ([c] + post)[1..] == post && pre + post == post;
    } else {
      NoiseIgnored(pre[1..], c, post);
      assert (pre + [c] + post)[1..] == pre[1..] + [c] + post;
      assert (pre + post)[1..] == pre[1..] + post;
    }
  }

  lemma LettersEnd(tail: bytes)
    requires tail == [] || Ends(tail[0])
    ensures Letters(tail) == []
  {
  }

  lemma LettersNext(c: byte, rest: bytes)
    requires Value(c) >= 0 && !Ends(c)
    ensures Letters([c] + rest) == [c] + Letters(rest)
  {
    assert ([c] + rest)[1..] == rest;
  }

  lemma {:induction false} LettersOfChars(vs: seq<sextet>, tail: bytes)
    requires tail == [] || Ends(tail[0])
    ensures Letters(Chars(vs) + tail) == Chars(vs)
  {
    hide Char, Value, Ends, Letters;
    if vs == [] {
      LettersEnd(tail);
      assert Chars(vs) + tail == tail;
    } else {
      CharValue(vs[0]);
      LettersOfChars(vs[1..], tail);
      var rest := Chars(vs[1..]) + tail;
      assert Chars(vs) + tail == [Char(vs[0])] + rest;
      LettersNext(Char(vs[0]), rest);
    }
  }

  // ---------------------------------------------------------------- sextets back to bytes

  /** The decoder on numbers. */
  function Regroup(vs: seq<sextet>, acc: nat, bits: nat): bytes
    decreases |vs|
  {
    if vs == [] then []
    else
      var acc' := Shift(acc, vs[0]);
      if bits + 6 >= 8 then [acc' / Pow2(bits - 2) % 256] + Regroup(vs[1..], acc', bits - 2)
      else Regroup(vs[1..], acc', bits + 6)
  }

  lemma CharValue(v: sextet)
    ensures Value(Char(v)) == v && !Ends(Char(v))
  {
  }

  /** The table knows exactly the characters of the alphabet. */
  lemma TableExact(c: byte)
    ensures Value(c) >= 0 <==> exists v: sextet :: Char(v) == c
    ensures Value(c) >= 0 ==> Char(Value(c)) == c
  {
    if Value(c) >= 0 {
      assert Char(Value(c)) == c;
    } else {
      forall v: sextet
        ensures Char(v) != c
      {
        CharValue(v);
      }
    }
  }

  lemma {:induction false} DecodeChars(vs: seq<sextet>, acc: nat, bits: nat)
    ensures Decode(Chars(vs), acc, bits) == Regroup(vs, acc, bits)
    decreases |vs|
  {
    hide Pow2, Char, Shift, Value;
    if vs != [] {
      var v := vs[0];
      CharValue(v);
      assert Chars(vs)[1..] == Chars(vs[1..]);
      var acc' := Shift(acc, v);
      DecodeChars(vs[1..], acc', if bits + 6 >= 8 then bits - 2 else bits + 6);
    }
  }

  lemma ShiftIs(acc: nat, v: sextet)
    ensures Shift(acc, v) == (acc * 64 + v) % TWO32
  {
  }

  lemma Shift1(acc: nat, v: sextet)
    ensures Shift(acc, v) % 64 == v
  {
    ShiftIs(acc, v);
    hide Shift;
    var m := (acc * 64 + v) / TWO32;
    assert Shift(acc, v) == (acc - m * 0x400_0000) * 64 + v;
  }

  lemma Shift2(acc: nat, v: sextet)
    ensures Shift(acc, v) / 16 % 256 == acc % 64 * 4 + v / 16 && Shift(acc, v) % 16 == v % 16
  {
    ShiftIs(acc, v);
    hide Shift;
    var m, k, r := (acc * 64 + v) / TWO32, acc / 64, acc % 64;
    assert Shift(acc, v) == (k - m * 0x10_0000) * 4096 + r * 64 + v;
    Digits2(Shift(acc, v), k - m * 0x10_0000, r, v);
  }

  lemma Digits2(s: int, h: int, r: sextet, v: sextet)
    requires s == h * 4096 + r * 64 + v
    ensures s / 16 % 256 == r * 4 + v / 16 && s % 16 == v % 16
  {
    By16(s, h * 256 + (r * 4 + v / 16), v % 16);
    LowByte(h, r * 4 + v / 16);
  }

  lemma By16(s: int, q: int, r: int)
    requires s == q * 16 + r && 0 <= r < 16
    ensures s / 16 == q && s % 16 == r
  {
  }

  lemma By4(s: int, q: int, r: int)
    requires s == q * 4 + r && 0 <= r < 4
    ensures s / 4 == q && s % 4 == r
  {
  }

  lemma LowByte(h: int, x: int)
    requires 0 <= x < 256
    ensures (h * 256 + x) % 256 == x
  {
  }

  lemma Shift3(acc: nat, v: sextet)
    ensures Shift(acc, v) / 4 % 256 == acc % 16 * 16 + v / 4 && Shift(acc, v) % 4 == v % 4
  {
    ShiftIs(acc, v);
    hide Shift;
    var m, k, r := (acc * 64 + v) / TWO32, acc / 16, acc % 16;
    assert Shift(acc, v) == (k - m * 0x40_0000) * 1024 + r * 64 + v;
    Digits3(Shift(acc, v), k - m * 0x40_0000, r, v);
  }

  lemma Digits3(s: int, h: int, r: nat, v: sextet)
    requires s == h * 1024 + r * 64 + v && r < 16
    ensures s / 4 % 256 == r * 16 + v / 4 && s % 4 == v % 4
  {
    By4(s, h * 256 + (r * 16 + v / 4), v % 4);
    LowByte(h, r * 16 + v / 4);
  }

  lemma Shift4(acc: nat, v: sextet)
    ensures Shift(acc, v) % 256 == acc % 4 * 64 + v
  {
    ShiftIs(acc, v);
    hide Shift;
    var m, k, r := (acc * 64 + v) / TWO32, acc / 4, acc % 4;
    assert Shift(acc, v) == (k - m * 0x100_0000) * 256 + (r * 64 + v);
  }

  lemma SmallPowers()
    ensures Pow2(0) == 1 && Pow2(2) == 4 && Pow2(4) == 16
  {
    assert Pow2(3) == 2 * Pow2(2);
  }

  /** One number. */
  lemma RegroupNext(v: sextet, rest: seq<sextet>, acc: nat, bits: nat)
    ensures Regroup([v] + rest, acc, bits) ==
            if bits + 6 >= 8 then [Shift(acc, v) / Pow2(bits - 2) % 256] + Regroup(rest, Shift(acc, v), bits - 2)
            else Regroup(rest, Shift(acc, v), bits + 6)
  {
    hide Shift, Pow2;
    assert ([v] + rest)[1..] == rest;
  }

  /** The first two numbers of a group give its first byte. */
  lemma FirstByte(v: sextet, w: sextet, rest: seq<sextet>, acc: nat)
    ensures Regroup([v, w] + rest, acc, 0) == [v * 4 + w / 16] + Regroup(rest, Shift(Shift(acc, v), w), 4)
    ensures Shift(Shift(acc, v), w) % 16 == w % 16
  {
    hide Regroup, Shift;
    SmallPowers();
    hide Pow2;
    assert [v, w] + rest == [v] + ([w] + rest);
    RegroupNext(v, [w] + rest, acc, 0);
    Shift1(acc, v);
    RegroupNext(w, rest, Shift(acc, v), 6);
    Shift2(Shift(acc, v), w);
  }

  lemma SecondByte(v: sextet, rest: seq<sextet>, acc: nat)
    ensures Regroup([v] + rest, acc, 4) == [acc % 16 * 16 + v / 4] + Regroup(rest, Shift(acc, v), 2)
    ensures Shift(acc, v) % 4 == v % 4
  {
    hide Regroup, Shift;
    SmallPowers();
    hide Pow2;
    RegroupNext(v, rest, acc, 4);
    Shift3(acc, v);
  }

  lemma ThirdByte(v: sextet, rest: seq<sextet>, acc: nat)
    ensures Regroup([v] + rest, acc, 2) == [acc % 4 * 64 + v] + Regroup(rest, Shift(acc, v), 0)
  {
    hide Regroup, Shift;
    SmallPowers();
    hide Pow2;
    RegroupNext(v, rest, acc, 2);
    Shift4(acc, v);
  }

  lemma GroupBytes(a: byte, b: byte, c: byte)
    ensures var s1, s2 := a % 4 * 16 + b / 16, b % 16 * 4 + c / 64;
            && a / 4 * 4 + s1 / 16 == a && s1 % 16 * 16 + s2 / 4 == b && s2 % 4 * 64 + c % 64 == c
  {
  }

  /** A whole group, and the two kinds of last group. */
  lemma WholeGroup(a: byte, b: byte, c: byte, rest: seq<sextet>, acc: nat) returns (acc': nat)
    ensures Regroup([a / 4, a % 4 * 16 + b / 16, b % 16 * 4 + c / 64, c % 64] + rest, acc, 0)
            == [a, b, c] + Regroup(rest, acc', 0)
  {
    hide Regroup, Shift;
    GroupBytes(a, b, c);
    var s0: sextet, s1: sextet, s2: sextet, s3: sextet := a / 4, a % 4 * 16 + b / 16, b % 16 * 4 + c / 64, c % 64;
    assert [s0, s1, s2, s3] + rest == [s0, s1] + ([s2] + ([s3] + rest));
    FirstByte(s0, s1, [s2] + ([s3] + rest), acc);
    acc' := Shift(Shift(acc, s0), s1);
    SecondByte(s2, [s3] + rest, acc');
    acc' := Shift(acc', s2);
    ThirdByte(s3, rest, acc');
    acc' := Shift(acc', s3);
  }

  lemma ShortGroup1(a: byte, acc: nat)
    ensures Regroup([a / 4, a % 4 * 16], acc, 0) == [a]
  {
    hide Regroup, Shift;
    GroupBytes(a, 0, 0);
    assert [a / 4, a % 4 * 16] == [a / 4, a % 4 * 16] + [];
    FirstByte(a / 4, a % 4 * 16, [], acc);
    RegroupEmpty(Shift(Shift(acc, a / 4), a % 4 * 16), 4);
  }

  lemma ShortGroup2(a: byte, b: byte, acc: nat)
    ensures Regroup([a / 4, a % 4 * 16 + b / 16, b % 16 * 4], acc, 0) == [a, b]
  {
    hide Regroup, Shift;
    GroupBytes(a, b, 0);
    var s0: sextet, s1: sextet, s2: sextet := a / 4, a % 4 * 16 + b / 16, b % 16 * 4;
    assert [s0, s1, s2] == [s0, s1] + ([s2] + []);
    FirstByte(s0, s1, [s2] + [], acc);
    SecondByte(s2, [], Shift(Shift(acc, s0), s1));
    RegroupEmpty(Shift(Shift(Shift(acc, s0), s1), s2), 2);
  }

  /** Whatever the register holds, the numbers of a byte string are regrouped into that string. */
  lemma {:induction false} RegroupSextets(x: bytes, acc: nat)
    ensures Regroup(Sextets(x), acc, 0) == x
    decreases |x|
  {
    hide Regroup;
    if |x| == 0 {
      RegroupEmpty(acc, 0);
    } else if |x| == 1 {
      ShortGroup1(x[0], acc);
    } else if |x| == 2 {
      ShortGroup2(x[0], x[1], acc);
    } else {
      var acc' := WholeGroup(x[0], x[1], x[2], Sextets(x[3..]), acc);
      RegroupSextets(x[3..], acc');
    }
  }

  lemma RegroupEmpty(acc: nat, bits: nat)
    ensures Regroup([], acc, bits) == []
  {
  }

  /** Decoding gives back the encoded bytes, even with other characters put in between. */
  lemma DecodesEncoded(x: bytes, src: bytes)
    requires Letters(src) == Letters(Encode(x))
    ensures Decode(src, 0, 0) == x
  {
    hide Decode, Regroup, Sextets, Chars, Letters;
    LettersOfChars(Sextets(x), if |x| % 3 == 1 then [PADDING, PADDING] else if |x| % 3 == 2 then [PADDING] else []);
    LettersOnly(src, 0, 0);
    DecodeChars(Sextets(x), 0, 0);
    RegroupSextets(x, 0);
  }

  function Take(s: bytes, n: nat): bytes {
    if n <= |s| then s[..n] else s
  }

  /** One character of the source. */
  lemma DecodeNext(src: bytes, i: nat, acc: nat, bits: nat)
    requires i < |src| && !Ends(src[i])
    ensures var v, rest := Value(src[i]), src[i + 1..];
            Decode(src[i..], acc, bits) ==
              if v < 0 then Decode(rest, acc, bits)
              else
                var acc' := (acc * 64 % TWO32 + v) % TWO32;
                if bits + 6 >= 8 then [acc' / Pow2(bits - 2) % 256] + Decode(rest, acc', bits - 2)
                else Decode(rest, acc', bits + 6)
  {
    hide Pow2, Value;
    assert src[i..][1..] == src[i + 1..];
  }

  /** Writing one more byte where there is room for it. */
  lemma TakeNext(written: bytes, b: byte, room: nat)
    ensures Take(written + [b], room)
            == if |Take(written, room)| < room then Take(written, room) + [b] else Take(written, room)
  {
  }

  /** `tnt_base64_decode` into a destination of dst.Length bytes. */
  method DecodeInto(src: bytes, dst: array<byte>) returns (j: nat)
    modifies dst
    ensures j <= dst.Length && dst[..j] == Take(Decode(src, 0, 0), dst.Length)
    ensures dst[j..] == old(dst[j..])
  {
    hide Pow2, Value, Decode, Take;
    j := 0;
    var acc, bits := 0, 0;
    var i := 0;
    ghost var written: bytes := [];
    assert src[0..] == src;
    TakeEmpty(dst.Length);
    while i < |src| && src[i] != 0 && src[i] != PADDING
      invariant 0 <= i <= |src| && 0 <= bits < 8 && 0 <= acc
      invariant Decode(src, 0, 0) == written + Decode(src[i..], acc, bits)
      invariant j <= dst.Length && dst[..j] == Take(written, dst.Length)
      invariant forall k :: j <= k < dst.Length ==> dst[k] == old(dst[k])
    {
      DecodeNext(src, i, acc, bits);
      var val := Value(src[i]);
      if val >= 0 {
        acc := (acc * 64 % TWO32 + val) % TWO32;
        bits := bits + 6;
        if bits >= 8 {
          bits := bits - 8;
          TakeNext(written, acc / Pow2(bits) % 256, dst.Length);
          Assoc(written, acc / Pow2(bits) % 256, Decode(src[i + 1..], acc, bits));
          written := written + [acc / Pow2(bits) % 256];
          if j < dst.Length {
            dst[j] := acc / Pow2(bits) % 256;
            j := j + 1;
          }
        }
      }
      i := i + 1;
    }
    DecodeEnd(src[i..], acc, bits);
    assert written + [] == written;
  }

  lemma Assoc(w: bytes, b: byte, rest: bytes)
    ensures w + ([b] + rest) == w + [b] + rest
  {
  }

  lemma DecodeEnd(src: bytes, acc: nat, bits: nat)
    requires src == [] || Ends(src[0])
    ensures Decode(src, acc, bits) == []
  {
  }

  lemma TakeEmpty(room: nat)
    ensures Take([], room) == []
  {
  }
}
